/** RecipeFilter and IngredientFilter of backend/recipes/filters.py, each a
    predicate that narrows a query. A query is the list of keys it yields,
    in order; a filter keeps a sub-list. A filter whose value is empty is
    not applied at all; the CharFilter values (is_favorited,
    is_in_shopping_cart and the ingredient name) are cleaned by a form
    CharField, which strips surrounding whitespace first, so a value of
    blanks only is empty too. The tags filter only accepts slugs of existing
    tags (its choices) and the author filter only existing users; another
    value makes the whole filter set invalid, which the view reports as a
    bad request. */
module Filters {
  import opened Common
  import opened Schema
  import Text

  datatype FilterError = InvalidAuthor | InvalidTag(slug: string)

  /** The query string of a recipe list: author, tags (repeatable),
      is_favorited and is_in_shopping_cart; an absent parameter is empty. */
  datatype Query = Query(author: Option<int>, tags: seq<string>, isFavorited: string, isInShoppingCart: string)

  /** The slugs of a recipe's tags. */
  function SlugsOf(db: Db, r: RecipeId): set<string> {
    if r in db.recipes then set t | t in db.recipes[r].tags && t in db.tags :: db.tags[t].slug else {}
  }

  /** The filter's choices: every tag's slug. */
  function TagChoices(db: Db): set<string> {
    set t | t in db.tags :: db.tags[t].slug
  }

  /** tags__slug__in=value: some tag of the recipe has one of the slugs. */
  predicate HasTagIn(db: Db, r: RecipeId, slugs: seq<string>) {
    SlugsOf(db, r) * Elems(slugs) != {}
  }

  /** filter_tags: the union over the given slugs, each recipe once. */
  function FilterTags(db: Db, qs: seq<RecipeId>, slugs: seq<string>): (r: seq<RecipeId>)
    ensures slugs == [] ==> r == qs
    ensures slugs != [] ==> forall i :: 0 <= i < |r| ==> r[i] in qs && HasTagIn(db, r[i], slugs)
    ensures slugs != [] ==> forall i :: 0 <= i < |qs| && HasTagIn(db, qs[i], slugs) ==> qs[i] in r
    ensures Distinct(qs) ==> Distinct(r)
  {
    if slugs == [] then qs else Keep(qs, r => HasTagIn(db, r, slugs))
  }

  /** filter_is_favorited and filter_is_in_shopping_cart over the given
      membership pairs: any value that is not blank once stripped, "0" and
      "false" included, keeps the requester's members, but only for a
      logged-in requester. */
  function FilterMember(qs: seq<RecipeId>, pairs: set<(UserId, RecipeId)>, value: string, who: Requester): (r: seq<RecipeId>)
    ensures Text.Strip(value) == [] || who.Anonymous? ==> r == qs
    ensures Text.Strip(value) != [] && who.Authenticated? ==>
      && (forall i :: 0 <= i < |r| ==> r[i] in qs && (who.id, r[i]) in pairs)
      && (forall i :: 0 <= i < |qs| && (who.id, qs[i]) in pairs ==> qs[i] in r)
    ensures Distinct(qs) ==> Distinct(r)
  {
    if Text.Strip(value) != [] && who.IsAuthenticated() then Keep(qs, r => (who.id, r) in pairs) else qs
  }

  predicate ByAuthor(db: Db, r: RecipeId, a: int) {
    r in db.recipes && db.recipes[r].author == a
  }

  /** The author filter generated from Meta.fields. */
  function FilterAuthor(db: Db, qs: seq<RecipeId>, author: Option<int>): (r: seq<RecipeId>)
    ensures author.None? ==> r == qs
    ensures author.Some? ==>
      && (forall i :: 0 <= i < |r| ==> r[i] in qs && ByAuthor(db, r[i], author.value))
      && (forall i :: 0 <= i < |qs| && ByAuthor(db, qs[i], author.value) ==> qs[i] in r)
    ensures Distinct(qs) ==> Distinct(r)
  {
    match author
    case None => qs
    case Some(a) => Keep(qs, r => ByAuthor(db, r, a))
  }

  /** The first tag value that is not one of the choices. */
  function BadSlug(db: Db, slugs: seq<string>): (r: Option<string>)
    ensures r.None? <==> forall i :: 0 <= i < |slugs| ==> slugs[i] in TagChoices(db)
    ensures r.Some? ==> r.value in slugs && r.value !in TagChoices(db)
  {
    if slugs == [] then None
    else if slugs[0] !in TagChoices(db) then Some(slugs[0])
    else
      var r := BadSlug(db, slugs[1..]);
      assert forall i :: 1 <= i < |slugs| ==> slugs[i] == slugs[1..][i - 1];
      r
  }

  /** Everything the query asks of one recipe. */
  predicate Selected(db: Db, q: Query, who: Requester, r: RecipeId) {
    && (q.author.Some? ==> ByAuthor(db, r, q.author.value))
    && (q.tags != [] ==> HasTagIn(db, r, q.tags))
    && (Text.Strip(q.isFavorited) != [] && who.Authenticated? ==> (who.id, r) in db.favorites)
    && (Text.Strip(q.isInShoppingCart) != [] && who.Authenticated? ==> (who.id, r) in db.carts)
  }

  /** The whole filter set: its values are validated, then each filter
      narrows the result of the one before, in Meta.fields order. */
  function Apply(db: Db, qs: seq<RecipeId>, q: Query, who: Requester): (r: Result<seq<RecipeId>, FilterError>)
    ensures r.Err? <==>
      (q.author.Some? && (q.author.value < 0 || q.author.value !in db.users)) || BadSlug(db, q.tags).Some?
  {
    if q.author.Some? && (q.author.value < 0 || q.author.value !in db.users) then Err(InvalidAuthor)
    else if BadSlug(db, q.tags).Some? then Err(InvalidTag(BadSlug(db, q.tags).value))
    else
      Ok(Narrow(db, qs, q, who))
  }

  /** The filters in Meta.fields order, once the values are valid. */
  function Narrow(db: Db, qs: seq<RecipeId>, q: Query, who: Requester): seq<RecipeId> {
    var byAuthor := FilterAuthor(db, qs, q.author);
    var byTags := FilterTags(db, byAuthor, q.tags);
    var favourites := FilterMember(byTags, db.favorites, q.isFavorited, who);
    FilterMember(favourites, db.carts, q.isInShoppingCart, who)
  }

  /** Whatever the filters keep comes from the input and meets every
      condition. */
  lemma NarrowSound(db: Db, qs: seq<RecipeId>, q: Query, who: Requester)
    ensures var out := Narrow(db, qs, q, who);
      forall i :: 0 <= i < |out| ==> out[i] in qs && Selected(db, q, who, out[i])
  {
    var byAuthor := FilterAuthor(db, qs, q.author);
    var byTags := FilterTags(db, byAuthor, q.tags);
    var favourites := FilterMember(byTags, db.favorites, q.isFavorited, who);
    var out := FilterMember(favourites, db.carts, q.isInShoppingCart, who);
    forall i | 0 <= i < |out| ensures out[i] in qs && Selected(db, q, who, out[i]) {
      var x := out[i];
      var k :| 0 <= k < |favourites| && favourites[k] == x;
      var l :| 0 <= l < |byTags| && byTags[l] == x;
      var m :| 0 <= m < |byAuthor| && byAuthor[m] == x;
    }
  }

  /** Every input recipe that meets every condition is kept. */
  lemma NarrowComplete(db: Db, qs: seq<RecipeId>, q: Query, who: Requester)
    ensures var out := Narrow(db, qs, q, who);
      forall i :: 0 <= i < |qs| && Selected(db, q, who, qs[i]) ==> qs[i] in out
  {
    var byAuthor := FilterAuthor(db, qs, q.author);
    var byTags := FilterTags(db, byAuthor, q.tags);
    var favourites := FilterMember(byTags, db.favorites, q.isFavorited, who);
    var out := FilterMember(favourites, db.carts, q.isInShoppingCart, who);
    forall i | 0 <= i < |qs| && Selected(db, q, who, qs[i]) ensures qs[i] in out {
      var x := qs[i];
      var m :| 0 <= m < |byAuthor| && byAuthor[m] == x;
      var l :| 0 <= l < |byTags| && byTags[l] == x;
      var k :| 0 <= k < |favourites| && favourites[k] == x;
    }
  }

  /** A valid filter set returns exactly the recipes of its input that meet
      every condition it applies, each once and in input order: in
      particular a subset of its input. */
  lemma ApplySelects(db: Db, qs: seq<RecipeId>, q: Query, who: Requester)
    requires Distinct(qs)
    requires Apply(db, qs, q, who).Ok?
    ensures var out := Apply(db, qs, q, who).value;
      && Distinct(out)
      && (forall i :: 0 <= i < |out| ==> out[i] in qs && Selected(db, q, who, out[i]))
      && (forall i :: 0 <= i < |qs| && Selected(db, q, who, qs[i]) ==> qs[i] in out)
  {
    assert Apply(db, qs, q, who).value == Narrow(db, qs, q, who);
    NarrowSound(db, qs, q, who);
    NarrowComplete(db, qs, q, who);
  }

  /** name__icontains: the query occurs in the name, ignoring case. */
  predicate NameMatches(db: Db, k: IngredientId, query: string) {
    k in db.ingredients && Text.Contains(Text.LowerStr(db.ingredients[k].name), Text.LowerStr(query))
  }

  /** IngredientFilter: the name is stripped first, and a blank name
      filters nothing. */
  function FilterIngredients(db: Db, qs: seq<IngredientId>, query: string): (r: seq<IngredientId>)
    ensures Text.Strip(query) == [] ==> r == qs
    ensures Text.Strip(query) != [] ==>
      && (forall i :: 0 <= i < |r| ==> r[i] in qs && NameMatches(db, r[i], Text.Strip(query)))
      && (forall i :: 0 <= i < |qs| && NameMatches(db, qs[i], Text.Strip(query)) ==> qs[i] in r)
  {
    var t := Text.Strip(query);
    if t == [] then qs else Keep(qs, k => NameMatches(db, k, t))
  }

  /** The match ignores the case of the query. */
  lemma IngredientFilterIgnoresCase(db: Db, qs: seq<IngredientId>, query: string)
    ensures FilterIngredients(db, qs, Text.LowerStr(query)) == FilterIngredients(db, qs, query)
  {
    var t := Text.Strip(query);
    Text.StripLower(query);
    Text.LowerStrIdempotent(t);
    if t != [] {
      KeepCongruent(qs, k => NameMatches(db, k, Text.Strip(Text.LowerStr(query))), k => NameMatches(db, k, t));
    }
  }

  /** Whitespace around the name changes nothing: a padded name searches
      for the name itself. */
  lemma IngredientFilterIgnoresPadding(db: Db, qs: seq<IngredientId>, query: string)
    ensures FilterIngredients(db, qs, " " + query + " ") == FilterIngredients(db, qs, query)
  {
    Text.StripSurrounded(query);
  }

  /** A value of blanks only is skipped like an absent one, for every
      requester. */
  lemma BlankMemberValueSkipped(qs: seq<RecipeId>, pairs: set<(UserId, RecipeId)>, who: Requester)
    ensures FilterMember(qs, pairs, " ", who) == qs
  {
    assert Text.LeadingSpaces(" ") == 1;
  }
}
