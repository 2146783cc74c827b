/** download_shopping_cart, identical in backend/recipes/views.py and
    backend/api/views.py: the requester's cart rows are joined (LEFT OUTER,
    through the recipe) to the recipes' ingredient rows, grouped by the
    ingredient's (name, measurement_unit) with the amounts summed, and
    rendered as one "name (unit) — total" line per group after a header.

    A cart recipe with no ingredient rows still yields one joined row whose
    name, unit and amount are NULL; it forms the NoIngredient group, which
    renders as "None (None) — None". The database returns the groups in no
    particular order, so the model fixes one enumeration of the cart and
    states everything about the groups independently of their order. */
module ShoppingList {
  import opened Common
  import opened Schema
  import Text

  /** The grouping key: an ingredient's name and unit, or the NULL pair. */
  datatype Key = Named(name: string, unit: string) | NoIngredient

  /** One joined row: its key and its amount (0 for the NULL row). */
  datatype Entry = Entry(key: Key, amount: nat)

  /** One output row of the aggregate: a key and the sum of its amounts. */
  datatype Group = Group(key: Key, total: nat)

  /** The recipes in the user's cart. */
  function CartOf(db: Db, u: UserId): set<RecipeId> {
    set p | p in db.carts && p.0 == u :: p.1
  }

  function KeyOf(db: Db, ingredient: IngredientId): Key {
    if ingredient in db.ingredients then
      Named(db.ingredients[ingredient].name, db.ingredients[ingredient].unit)
    else NoIngredient
  }

  function RowEntries(db: Db, rows: seq<RecipeIngredient>): (es: seq<Entry>)
    ensures |es| == |rows|
    ensures forall i :: 0 <= i < |rows| ==> es[i] == Entry(KeyOf(db, rows[i].ingredient), rows[i].amount)
  {
    seq(|rows|, i requires 0 <= i < |rows| => Entry(KeyOf(db, rows[i].ingredient), rows[i].amount))
  }

  /** The joined rows of one cart recipe. */
  function RecipeEntries(db: Db, r: RecipeId): (es: seq<Entry>)
    ensures |es| >= 1
  {
    if r in db.rows && db.rows[r] != [] then RowEntries(db, db.rows[r]) else [Entry(NoIngredient, 0)]
  }

  /** The joined rows of the cart, recipe by recipe. */
  function CartEntries(db: Db, recipes: seq<RecipeId>): seq<Entry> {
    if recipes == [] then [] else CartEntries(db, recipes[..|recipes| - 1]) + RecipeEntries(db, recipes[|recipes| - 1])
  }

  /** Sum('amount') over the entries with key k: the reference definition of
      a group's total. */
  function SumFor(es: seq<Entry>, k: Key): nat {
    if es == [] then 0
    else SumFor(es[..|es| - 1], k) + (if es[|es| - 1].key == k then es[|es| - 1].amount else 0)
  }

  /** The sum of every amount. */
  function SumAll(es: seq<Entry>): nat {
    if es == [] then 0 else SumAll(es[..|es| - 1]) + es[|es| - 1].amount
  }

  function KeysOf(es: seq<Entry>): set<Key> {
    set i | 0 <= i < |es| :: es[i].key
  }

  function GroupKeys(gs: seq<Group>): set<Key> {
    set i | 0 <= i < |gs| :: gs[i].key
  }

  predicate DistinctKeys(gs: seq<Group>) {
    forall i, j :: 0 <= i < j < |gs| ==> gs[i].key != gs[j].key
  }

  function Total(gs: seq<Group>): nat {
    if gs == [] then 0 else Total(gs[..|gs| - 1]) + gs[|gs| - 1].total
  }

  /** The position of the group with key k, or |gs| when there is none. */
  function Find(gs: seq<Group>, k: Key): (i: nat)
    ensures i <= |gs|
    ensures i < |gs| ==> gs[i].key == k
    ensures forall j :: 0 <= j < i ==> gs[j].key != k
  {
    if gs == [] || gs[0].key == k then 0 else 1 + Find(gs[1..], k)
  }

  /** Folding one more joined row into the groups. */
  function AddEntry(gs: seq<Group>, e: Entry): seq<Group> {
    var i := Find(gs, e.key);
    if i < |gs| then gs[i := Group(e.key, gs[i].total + e.amount)] else gs + [Group(e.key, e.amount)]
  }

  lemma SumForAppend(es: seq<Entry>, e: Entry, k: Key)
    ensures SumFor(es + [e], k) == SumFor(es, k) + (if e.key == k then e.amount else 0)
  {
    assert (es + [e])[..|es|] == es;
  }

  lemma {:induction false} TotalUpdate(gs: seq<Group>, i: nat, g: Group)
    requires i < |gs|
    ensures Total(gs[i := g]) == Total(gs) - gs[i].total + g.total
    ensures Total(gs) >= gs[i].total
  {
    var n := |gs| - 1;
    if i < n {
      assert gs[i := g][..n] == gs[..n][i := g];
      TotalUpdate(gs[..n], i, g);
    } else {
      assert gs[i := g][..n] == gs[..n];
    }
  }

  /** The GROUP BY: one group per distinct key among the entries, holding
      that key's total. */
  function Aggregate(es: seq<Entry>): (gs: seq<Group>)
    ensures DistinctKeys(gs)
    ensures GroupKeys(gs) == KeysOf(es)
    ensures forall i :: 0 <= i < |gs| ==> gs[i].total == SumFor(es, gs[i].key)
    ensures Total(gs) == SumAll(es)
  {
    if es == [] then []
    else
      var prefix := es[..|es| - 1];
      var e := es[|es| - 1];
      var before := Aggregate(prefix);
      var gs := AddEntry(before, e);
      AggregateStep(prefix, e, before);
      assert prefix + [e] == es;
      gs
  }

  /** The induction step of Aggregate, on a prefix whose groups are right. */
  lemma AggregateStep(prefix: seq<Entry>, e: Entry, before: seq<Group>)
    requires DistinctKeys(before)
    requires GroupKeys(before) == KeysOf(prefix)
    requires forall i :: 0 <= i < |before| ==> before[i].total == SumFor(prefix, before[i].key)
    requires Total(before) == SumAll(prefix)
    ensures var gs := AddEntry(before, e);
      && DistinctKeys(gs)
      && GroupKeys(gs) == KeysOf(prefix + [e])
      && (forall i :: 0 <= i < |gs| ==> gs[i].total == SumFor(prefix + [e], gs[i].key))
      && Total(gs) == SumAll(prefix + [e])
  {
    var es := prefix + [e];
    assert es[..|es| - 1] == prefix;
    assert SumAll(es) == SumAll(prefix) + e.amount;
    KeysOfAppend(prefix, e);
    forall k ensures SumFor(es, k) == SumFor(prefix, k) + (if e.key == k then e.amount else 0) {
      SumForAppend(prefix, e, k);
    }
    if Find(before, e.key) < |before| {
      StepExisting(prefix, e, before);
    } else {
      StepNew(prefix, e, before);
    }
  }

  lemma KeysOfAppend(prefix: seq<Entry>, e: Entry)
    ensures KeysOf(prefix + [e]) == KeysOf(prefix) + {e.key}
  {
    var es := prefix + [e];
    forall k | k in KeysOf(es) ensures k in KeysOf(prefix) + {e.key} {
      var j :| 0 <= j < |es| && es[j].key == k;
      if j < |prefix| { assert prefix[j] == es[j]; }
    }
    forall k | k in KeysOf(prefix) ensures k in KeysOf(es) {
      var j :| 0 <= j < |prefix| && prefix[j].key == k;
      assert es[j] == prefix[j];
    }
    assert es[|prefix|] == e;
  }

  /** The step when the entry's key already has a group: that group grows. */
  lemma StepExisting(prefix: seq<Entry>, e: Entry, before: seq<Group>)
    requires DistinctKeys(before)
    requires GroupKeys(before) == KeysOf(prefix)
    requires forall i :: 0 <= i < |before| ==> before[i].total == SumFor(prefix, before[i].key)
    requires forall k :: SumFor(prefix + [e], k) == SumFor(prefix, k) + (if e.key == k then e.amount else 0)
    requires Find(before, e.key) < |before|
    ensures var gs := AddEntry(before, e);
      && DistinctKeys(gs)
      && GroupKeys(gs) == GroupKeys(before)
      && (forall i :: 0 <= i < |gs| ==> gs[i].total == SumFor(prefix + [e], gs[i].key))
      && Total(gs) == Total(before) + e.amount
  {
    var i := Find(before, e.key);
    var gs := AddEntry(before, e);
    assert gs == before[i := Group(e.key, before[i].total + e.amount)];
    assert forall j :: 0 <= j < |gs| ==> gs[j].key == before[j].key;
    TotalUpdate(before, i, Group(e.key, before[i].total + e.amount));
    assert GroupKeys(gs) == GroupKeys(before) by {
      forall k | k in GroupKeys(before) ensures k in GroupKeys(gs) {
        var j :| 0 <= j < |before| && before[j].key == k;
        assert gs[j].key == k;
      }
    }
  }

  /** The step when the entry's key is new: a group is appended. */
  lemma StepNew(prefix: seq<Entry>, e: Entry, before: seq<Group>)
    requires DistinctKeys(before)
    requires GroupKeys(before) == KeysOf(prefix)
    requires forall i :: 0 <= i < |before| ==> before[i].total == SumFor(prefix, before[i].key)
    requires forall k :: SumFor(prefix + [e], k) == SumFor(prefix, k) + (if e.key == k then e.amount else 0)
    requires Find(before, e.key) == |before|
    ensures var gs := AddEntry(before, e);
      && DistinctKeys(gs)
      && GroupKeys(gs) == GroupKeys(before) + {e.key}
      && (forall i :: 0 <= i < |gs| ==> gs[i].total == SumFor(prefix + [e], gs[i].key))
      && Total(gs) == Total(before) + e.amount
  {
    var gs := AddEntry(before, e);
    assert gs == before + [Group(e.key, e.amount)];
    assert gs[..|before|] == before;
    assert e.key !in GroupKeys(before);
    assert GroupKeys(gs) == GroupKeys(before) + {e.key} by {
      forall k | k in GroupKeys(gs) ensures k in GroupKeys(before) + {e.key} {
        var j :| 0 <= j < |gs| && gs[j].key == k;
        if j < |before| { assert before[j] == gs[j]; }
      }
      forall k | k in GroupKeys(before) ensures k in GroupKeys(gs) {
        var j :| 0 <= j < |before| && before[j].key == k;
        assert gs[j] == before[j];
      }
      assert gs[|before|].key == e.key;
    }
    forall j | 0 <= j < |before| ensures before[j].key != e.key {
      assert before[j].key in GroupKeys(before);
    }
    SumForAbsent(prefix, e.key);
  }

  /** A key that labels no entry sums to 0. */
  lemma {:induction false} SumForAbsent(es: seq<Entry>, k: Key)
    requires k !in KeysOf(es)
    ensures SumFor(es, k) == 0
  {
    if es != [] {
      var prefix := es[..|es| - 1];
      assert KeysOf(prefix) <= KeysOf(es) by {
        forall x | x in KeysOf(prefix) ensures x in KeysOf(es) {
          var j :| 0 <= j < |prefix| && prefix[j].key == x;
          assert es[j] == prefix[j];
        }
      }
      assert es[|es| - 1].key in KeysOf(es);
      SumForAbsent(prefix, k);
    }
  }

  /** No amount is lost or counted twice: the group totals add up to the
      sum of every joined row's amount. */
  lemma Conservation(es: seq<Entry>)
    ensures Total(Aggregate(es)) == SumAll(es)
  {
  }

  /** The sum of the amounts of the ingredient rows for ingredient k. */
  function RowSum(rows: seq<RecipeIngredient>, k: IngredientId): nat {
    if rows == [] then 0
    else RowSum(rows[..|rows| - 1], k) + (if rows[|rows| - 1].ingredient == k then rows[|rows| - 1].amount else 0)
  }

  /** The total of ingredient k over the cart recipes, grouped by key. */
  function SumById(db: Db, recipes: seq<RecipeId>, k: IngredientId): nat {
    if recipes == [] then 0
    else
      var r := recipes[|recipes| - 1];
      SumById(db, recipes[..|recipes| - 1], k) + (if r in db.rows then RowSum(db.rows[r], k) else 0)
  }

  /** Ingredients are unique by (name, unit), so two ingredients share a
      grouping key exactly when they are the same ingredient. */
  lemma KeyOfInjective(db: Db, i: IngredientId, j: IngredientId)
    requires UniqueIngredients(db)
    requires i in db.ingredients && j in db.ingredients
    ensures KeyOf(db, i) == KeyOf(db, j) <==> i == j
  {
    if i != j {
      assert db.ingredients[i] != db.ingredients[j];
    }
  }

  lemma {:induction false} SumForConcat(a: seq<Entry>, b: seq<Entry>, k: Key)
    ensures SumFor(a + b, k) == SumFor(a, k) + SumFor(b, k)
    decreases |b|
  {
    if b == [] {
      assert a + b == a;
    } else {
      var n := |b| - 1;
      assert (a + b)[..|a + b| - 1] == a + b[..n];
      SumForConcat(a, b[..n], k);
    }
  }

  lemma {:induction false} RowEntriesSum(db: Db, rows: seq<RecipeIngredient>, k: IngredientId)
    requires UniqueIngredients(db) && k in db.ingredients
    requires forall i :: 0 <= i < |rows| ==> rows[i].ingredient in db.ingredients
    ensures SumFor(RowEntries(db, rows), KeyOf(db, k)) == RowSum(rows, k)
  {
    if rows != [] {
      var n := |rows| - 1;
      assert RowEntries(db, rows)[..n] == RowEntries(db, rows[..n]);
      KeyOfInjective(db, rows[n].ingredient, k);
      RowEntriesSum(db, rows[..n], k);
    }
  }

  /** Grouping the cart by (name, unit) gives each ingredient the same total
      as grouping it by the ingredient's key would. */
  lemma {:induction false} GroupByNameUnitIsById(db: Db, recipes: seq<RecipeId>, k: IngredientId)
    requires UniqueIngredients(db) && k in db.ingredients
    requires forall r, i :: r in db.rows && 0 <= i < |db.rows[r]| ==> db.rows[r][i].ingredient in db.ingredients
    ensures SumFor(CartEntries(db, recipes), KeyOf(db, k)) == SumById(db, recipes, k)
  {
    if recipes != [] {
      var n := |recipes| - 1;
      var r := recipes[n];
      GroupByNameUnitIsById(db, recipes[..n], k);
      SumForConcat(CartEntries(db, recipes[..n]), RecipeEntries(db, r), KeyOf(db, k));
      if r in db.rows && db.rows[r] != [] {
        RowEntriesSum(db, db.rows[r], k);
      } else {
        assert SumFor(RecipeEntries(db, r), KeyOf(db, k)) == 0 by {
          assert RecipeEntries(db, r) == [Entry(NoIngredient, 0)];
          assert [Entry(NoIngredient, 0)][..0] == [];
        }
      }
    }
  }

  const Header: string := "Список покупок:"

  /** The f-string f"{name} ({unit}) — {amount}"; the NULL group prints
      Python's None in every place. */
  function Line(g: Group): string {
    match g.key
    case Named(name, unit) => name + " (" + unit + ") — " + Text.NatToString(g.total)
    case NoIngredient => "None (None) — None"
  }

  function Lines(gs: seq<Group>): (ls: seq<string>)
    ensures |ls| == |gs|
    ensures forall i :: 0 <= i < |gs| ==> ls[i] == Line(gs[i])
  {
    seq(|gs|, i requires 0 <= i < |gs| => Line(gs[i]))
  }

  /** '\n'.join(["Список покупок:\n"] + lines). */
  function Render(gs: seq<Group>): string {
    Text.Join([Header + "\n"] + Lines(gs), "\n")
  }

  /** A name or unit that holds no line break. */
  predicate OneLine(s: string) { '\n' !in s }

  predicate KeyOneLine(k: Key) {
    k.Named? ==> OneLine(k.name) && OneLine(k.unit)
  }

  lemma LineOneLine(g: Group)
    requires KeyOneLine(g.key)
    ensures OneLine(Line(g))
  {
    if g.key.Named? {
      var digits := Text.NatToString(g.total);
      assert forall i :: 0 <= i < |digits| ==> Text.IsDigit(digits[i]);
      assert '\n' !in digits;
    }
  }

  /** The header line is followed by a blank line (the header's own
      line break meets the separator) and then by exactly one line per
      group. */
  lemma RenderSplits(gs: seq<Group>)
    requires forall i :: 0 <= i < |gs| ==> KeyOneLine(gs[i].key)
    ensures Text.Split(Render(gs), '\n') == [Header, ""] + Lines(gs)
  {
    var ls := Lines(gs);
    Text.JoinTrailingSeparator(Header, ls, "\n");
    forall i | 0 <= i < |gs| ensures '\n' !in ls[i] {
      LineOneLine(gs[i]);
    }
    var xs := [Header, ""] + ls;
    assert forall i :: 0 <= i < |xs| ==> '\n' !in xs[i] by {
      forall i | 0 <= i < |xs| ensures '\n' !in xs[i] {
        if i >= 2 { assert xs[i] == ls[i - 2]; }
      }
    }
    Text.SplitJoin(xs, '\n');
  }

  /** The cart as a list: each cart recipe once, in the order the database
      happens to return them. */
  method CartRecipes(db: Db, u: UserId) returns (recipes: seq<RecipeId>)
    ensures Distinct(recipes)
    ensures Elems(recipes) == CartOf(db, u)
  {
    var rest := CartOf(db, u);
    recipes := [];
    while rest != {}
      invariant Distinct(recipes)
      invariant Elems(recipes) !! rest
      invariant Elems(recipes) + rest == CartOf(db, u)
      decreases |rest|
    {
      var r :| r in rest;
      assert r !in Elems(recipes);
      recipes := recipes + [r];
      rest := rest - {r};
    }
  }

  /** download_shopping_cart: the text file, with the cart enumeration and
      the groups it was built from. The action is a GET, and both view sets'
      get_permissions let every safe method through, so an anonymous request
      reaches ShoppingCart.objects.filter(user=request.user), where the
      anonymous user is no User row and the lookup raises: 500, no file. */
  method Download(db: Db, who: Requester) returns (status: Status, recipes: seq<RecipeId>, groups: seq<Group>, text: string)
    ensures status == Ok200 <==> who.Authenticated?
    ensures who.Anonymous? ==> status == InternalError500 && recipes == [] && groups == [] && text == []
    ensures who.Authenticated? ==> Distinct(recipes) && Elems(recipes) == CartOf(db, who.id)
    ensures DistinctKeys(groups)
    ensures GroupKeys(groups) == KeysOf(CartEntries(db, recipes))
    ensures forall i :: 0 <= i < |groups| ==> groups[i].total == SumFor(CartEntries(db, recipes), groups[i].key)
    ensures who.Authenticated? ==> text == Render(groups)
  {
    if who.Anonymous? {
      return InternalError500, [], [], [];
    }
    status := Ok200;
    recipes := CartRecipes(db, who.id);
    groups := Aggregate(CartEntries(db, recipes));
    text := Render(groups);
  }
}
