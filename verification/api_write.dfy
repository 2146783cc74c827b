/** RecipeWriteSerializer of backend/api/serializers.py: the second version of
    recipe writing, over the same request shape as RecipesWrite.

    Field by field: ingredients is a non-empty list of nested
    RecipeIngredient serializers, so each item needs an existing ingredient
    "id" and an "amount" that the model's [MIN_AMOUNT, MAX_AMOUNT]
    validators accept; tags is a non-empty list of existing tag keys; name
    and text are non-blank trimmed strings; cooking_time is held to the
    model's [MIN_COOKING_TIME, MAX_COOKING_TIME] validators and nothing
    else. Only when every field passes does validate() run, and it checks,
    in order: some ingredient (a missing key counts as none), no repeated
    ingredient, some tag (likewise), no repeated tag.

    A PATCH is a partial update, and the framework reads "partial" from the
    root serializer, so inside a nested item a missing "amount" is skipped
    rather than required. Such an item passes validation, and update() then
    fails on it after it has already deleted the recipe's ingredient rows.
    ValidateAsWritten and PatchAsWritten model that; Validate and Patch
    require the amount in every item, as create() and update() assume. */
module ApiWrite {
  import opened Common
  import opened Schema
  import Text
  import ShortCode
  import RecipesWrite

  type Payload = RecipesWrite.Payload
  type Item = RecipesWrite.Item
  type Valid = RecipesWrite.Valid

  datatype Field = Ingredients | Tags | Name | Text | CookingTime

  datatype Problem =
    | Required
    | Blank
    | Empty
    | InvalidItem
    | UnknownTag(tag: int)
    | OutOfBounds

  datatype FieldError = FieldError(field: Field, problem: Problem)

  /** The object-level errors of validate(). */
  datatype Invalid = NoIngredients | RepeatedIngredients | NoTags | RepeatedTags

  datatype Error =
    | FieldErrors(errors: seq<FieldError>)
    | NotValid(reason: Invalid)

  /** One nested item: the key names an ingredient, and the amount is
      within the model's bounds when given. A missing amount is refused as
      required, unless skipMissing, the partial update skipping it. */
  predicate ItemOk(db: Db, b: Bounds, item: Item, skipMissing: bool) {
    && RecipesWrite.KnownIngredient(db, item.id)
    && (item.amount.None? ==> skipMissing)
    && (item.amount.Some? ==> SmallPositive(item.amount.value) && InRange(item.amount.value, b.minAmount, b.maxAmount))
  }

  /** The nested list serializer runs every item; the list passes when each
      does. */
  function AllItemsOk(db: Db, b: Bounds, items: seq<Item>, skipMissing: bool): (r: bool)
    ensures r <==> forall i :: 0 <= i < |items| ==> ItemOk(db, b, items[i], skipMissing)
  {
    if items == [] then true
    else
      var rest := AllItemsOk(db, b, items[1..], skipMissing);
      assert forall i :: 1 <= i < |items| ==> items[i] == items[1..][i - 1];
      ItemOk(db, b, items[0], skipMissing) && rest
  }

  /** Every item carries an amount. */
  predicate AmountsGiven(items: seq<Item>) {
    forall i :: 0 <= i < |items| ==> items[i].amount.Some?
  }

  /** The ingredients field: allow_empty=False, then every nested item. */
  function IngredientsProblem(db: Db, b: Bounds, items: seq<Item>, skipMissing: bool): Option<Problem> {
    if items == [] then Some(Empty)
    else if !AllItemsOk(db, b, items, skipMissing) then Some(InvalidItem)
    else None
  }

  /** The tags field: allow_empty=False, then the first unknown key. */
  function TagsProblem(db: Db, tags: seq<int>): Option<Problem> {
    if tags == [] then Some(Empty)
    else if RecipesWrite.UnknownTagIn(db, tags).Some? then Some(UnknownTag(RecipesWrite.UnknownTagIn(db, tags).value))
    else None
  }

  function StringProblem(s: string): Option<Problem> {
    if Text.Strip(s) == [] then Some(Blank) else None
  }

  function CookingTimeProblem(b: Bounds, t: int): Option<Problem> {
    if SmallPositive(t) && InRange(t, b.minCookingTime, b.maxCookingTime) then None else Some(OutOfBounds)
  }

  function Check<T>(f: Field, v: Option<T>, partial: bool, problem: T -> Option<Problem>): seq<FieldError> {
    match v
    case None => if partial then [] else [FieldError(f, Required)]
    case Some(x) => match problem(x) { case None => [] case Some(e) => [FieldError(f, e)] }
  }

  /** The field errors of a request; partial lets top-level fields be
      missing, skipMissing lets a nested amount be missing. */
  function FieldErrorsOf(db: Db, b: Bounds, p: Payload, partial: bool, skipMissing: bool): seq<FieldError> {
    Check(Ingredients, p.ingredients, partial, items => IngredientsProblem(db, b, items, skipMissing))
    + Check(Tags, p.tags, partial, tags => TagsProblem(db, tags))
    + Check(Name, p.name, partial, StringProblem)
    + Check(Text, p.text, partial, StringProblem)
    + Check(CookingTime, p.cookingTime, partial, t => CookingTimeProblem(b, t))
  }

  /** validate(data) on data whose fields all passed. */
  function ObjectProblem(p: Payload): Option<Invalid> {
    var items := p.ingredients.GetOr([]);
    var tags := p.tags.GetOr([]);
    if items == [] then Some(NoIngredients)
    else if HasRepeats(RecipesWrite.Ids(items)) then Some(RepeatedIngredients)
    else if tags == [] then Some(NoTags)
    else if HasRepeats(tags) then Some(RepeatedTags)
    else None
  }

  /** An ingredients list whose every field check passes: non-empty, every
      item valid. Repeats are validate()'s business. */
  predicate ItemsFine(db: Db, b: Bounds, items: seq<Item>, skipMissing: bool) {
    |items| > 0 && forall i :: 0 <= i < |items| ==> ItemOk(db, b, items[i], skipMissing)
  }

  /** A tags list whose field check passes: non-empty, every key known. */
  predicate TagsKnown(db: Db, tags: seq<int>) {
    |tags| > 0 && forall i :: 0 <= i < |tags| ==> RecipesWrite.KnownTag(db, tags[i])
  }

  /** A cooking time the model validators accept. */
  predicate CookingTimeFine(b: Bounds, t: int) {
    SmallPositive(t) && InRange(t, b.minCookingTime, b.maxCookingTime)
  }

  /** The payload a request of method m may carry in this version, nested
      amounts skipped when missing or not. */
  ghost predicate Acceptable(db: Db, b: Bounds, p: Payload, m: Method, skipMissing: bool) {
    && p.ingredients.Some? && ItemsFine(db, b, p.ingredients.value, skipMissing)
    && Distinct(RecipesWrite.Ids(p.ingredients.value))
    && p.tags.Some? && TagsKnown(db, p.tags.value) && Distinct(p.tags.value)
    && (p.name.Some? ==> Text.Strip(p.name.value) != [])
    && (p.text.Some? ==> Text.Strip(p.text.value) != [])
    && (p.cookingTime.Some? ==> CookingTimeFine(b, p.cookingTime.value))
    && (m != PATCH ==> p.name.Some? && p.text.Some? && p.cookingTime.Some?)
  }

  lemma CheckEmpty<T>(f: Field, v: Option<T>, partial: bool, problem: T -> Option<Problem>)
    ensures Check(f, v, partial, problem) == [] <==>
      (v.None? ==> partial) && (v.Some? ==> problem(v.value).None?)
  {
  }

  lemma IngredientsOk(db: Db, b: Bounds, items: seq<Item>, skipMissing: bool)
    ensures IngredientsProblem(db, b, items, skipMissing).None? <==> ItemsFine(db, b, items, skipMissing)
  {
  }

  lemma TagsOk(db: Db, tags: seq<int>)
    ensures TagsProblem(db, tags).None? <==> TagsKnown(db, tags)
  {
  }

  /** No field reports an error exactly when every sent field passes its
      checks and, unless the request is partial, every field was sent. */
  lemma FieldErrorsEmpty(db: Db, b: Bounds, p: Payload, partial: bool, skipMissing: bool)
    ensures FieldErrorsOf(db, b, p, partial, skipMissing) == [] <==>
      && (p.ingredients.None? ==> partial)
      && (p.ingredients.Some? ==> ItemsFine(db, b, p.ingredients.value, skipMissing))
      && (p.tags.None? ==> partial)
      && (p.tags.Some? ==> TagsKnown(db, p.tags.value))
      && (p.name.None? ==> partial) && (p.name.Some? ==> Text.Strip(p.name.value) != [])
      && (p.text.None? ==> partial) && (p.text.Some? ==> Text.Strip(p.text.value) != [])
      && (p.cookingTime.None? ==> partial)
      && (p.cookingTime.Some? ==> CookingTimeFine(b, p.cookingTime.value))
  {
    CheckEmpty(Ingredients, p.ingredients, partial, items => IngredientsProblem(db, b, items, skipMissing));
    CheckEmpty(Tags, p.tags, partial, tags => TagsProblem(db, tags));
    CheckEmpty(Name, p.name, partial, StringProblem);
    CheckEmpty(Text, p.text, partial, StringProblem);
    CheckEmpty(CookingTime, p.cookingTime, partial, t => CookingTimeProblem(b, t));
    if p.ingredients.Some? { IngredientsOk(db, b, p.ingredients.value, skipMissing); }
    if p.tags.Some? { TagsOk(db, p.tags.value); }
  }

  lemma ObjectProblemNone(p: Payload)
    ensures ObjectProblem(p).None? <==>
      && |p.ingredients.GetOr([])| > 0 && Distinct(RecipesWrite.Ids(p.ingredients.GetOr([])))
      && |p.tags.GetOr([])| > 0 && Distinct(p.tags.GetOr([]))
  {
    RepeatsIffNotDistinct(RecipesWrite.Ids(p.ingredients.GetOr([])));
    RepeatsIffNotDistinct(p.tags.GetOr([]));
  }

  /** The data create() and update() work on: the rows of the sent list,
      the tag keys, the stripped strings and the cooking time. */
  function ValidOf(p: Payload, rows: seq<RecipeIngredient>): Valid
    requires p.tags.Some? && forall i :: 0 <= i < |p.tags.value| ==> p.tags.value[i] >= 0
  {
    RecipesWrite.Valid(Some(rows), Some(RecipesWrite.ToTagIds(p.tags.value)),
                       RecipesWrite.Trimmed(p.name), RecipesWrite.Trimmed(p.text), p.cookingTime)
  }

  /** Serializer validation of a request with method m: field errors first,
      then validate(); every nested item must carry its amount. */
  function Validate(db: Db, b: Bounds, p: Payload, m: Method): (r: Result<Valid, Error>)
    ensures r.Ok? ==> Acceptable(db, b, p, m, false)
    ensures r.Ok? ==>
      && r.value.ingredients == Some(RecipesWrite.ToRows(p.ingredients.value))
      && r.value.tags == Some(RecipesWrite.ToTagIds(p.tags.value))
      && r.value.name == RecipesWrite.Trimmed(p.name) && r.value.text == RecipesWrite.Trimmed(p.text)
      && r.value.cookingTime == p.cookingTime
  {
    var errs := FieldErrorsOf(db, b, p, m == PATCH, false);
    FieldErrorsEmpty(db, b, p, m == PATCH, false);
    ObjectProblemNone(p);
    if errs != [] then Err(FieldErrors(errs))
    else match ObjectProblem(p)
      case Some(e) => Err(NotValid(e))
      case None =>
        assert forall i :: 0 <= i < |p.ingredients.value| ==> ItemOk(db, b, p.ingredients.value[i], false);
        assert forall i :: 0 <= i < |p.tags.value| ==> RecipesWrite.KnownTag(db, p.tags.value[i]);
        Ok(ValidOf(p, RecipesWrite.ToRows(p.ingredients.value)))
  }

  /** Serializer validation as written: in a PATCH a nested item without an
      amount passes. The validated data is the payload itself. */
  function ValidateAsWritten(db: Db, b: Bounds, p: Payload, m: Method): (r: Result<Payload, Error>)
    ensures r.Ok? <==> Acceptable(db, b, p, m, m == PATCH)
    ensures r.Ok? ==> r.value == p
  {
    var errs := FieldErrorsOf(db, b, p, m == PATCH, m == PATCH);
    FieldErrorsEmpty(db, b, p, m == PATCH, m == PATCH);
    ObjectProblemNone(p);
    if errs != [] then Err(FieldErrors(errs))
    else match ObjectProblem(p)
      case Some(e) => Err(NotValid(e))
      case None => Ok(p)
  }

  /** Validation accepts exactly the acceptable payloads; once the fields
      pass, a missing or empty ingredients list and then a repeated
      ingredient are validate()'s own refusals. */
  lemma ValidateAccepts(db: Db, b: Bounds, p: Payload, m: Method)
    ensures Validate(db, b, p, m).Ok? <==> Acceptable(db, b, p, m, false)
    ensures FieldErrorsOf(db, b, p, m == PATCH, false) == [] && p.ingredients.GetOr([]) == [] ==>
      Validate(db, b, p, m) == Err(NotValid(NoIngredients))
    ensures FieldErrorsOf(db, b, p, m == PATCH, false) == [] && p.ingredients.GetOr([]) != []
            && !Distinct(RecipesWrite.Ids(p.ingredients.value)) ==>
      Validate(db, b, p, m) == Err(NotValid(RepeatedIngredients))
  {
    FieldErrorsEmpty(db, b, p, m == PATCH, false);
    ObjectProblemNone(p);
    RepeatsIffNotDistinct(RecipesWrite.Ids(p.ingredients.GetOr([])));
  }

  /** An empty ingredients list is a field error of its own field. */
  lemma EmptyIngredientsRefused(db: Db, b: Bounds, p: Payload, m: Method)
    requires p.ingredients == Some([])
    ensures var r := Validate(db, b, p, m);
      r.Err? && r.error.FieldErrors? && FieldError(Ingredients, Empty) in r.error.errors
  {
    var errs := FieldErrorsOf(db, b, p, m == PATCH, false);
    assert errs[0] == FieldError(Ingredients, Empty);
  }

  /** create(): the requester becomes the author, the tag set is the sent
      list, and bulk_create writes one ingredient row per item. This is the
      create of RecipesWrite, whose author the recipes view passes in. */
  function Create(db: Db, requester: UserId, id: RecipeId, v: Valid, draws: seq<ShortCode.Entropy>): (r: Result<Db, ShortCode.SaveError>)
    requires RecipesWrite.Complete(v)
    requires id !in db.recipes
    ensures r.Ok? ==>
      && r.value.recipes.Keys == db.recipes.Keys + {id} && id in r.value.rows
      && r.value.recipes[id].author == requester
      && r.value.recipes[id].tags == Elems(v.tags.value)
      && |r.value.rows[id]| == |v.ingredients.value|
      && (forall i :: 0 <= i < |v.ingredients.value| ==> r.value.rows[id][i] == v.ingredients.value[i])
  {
    RecipesWrite.Create(db, requester, id, v, draws)
  }

  /** update(): the sent fields overwrite the recipe, tags.set(...) replaces
      the tag set, and every old ingredient row is deleted before the new
      list is inserted. validate() has already demanded both lists, and
      tags.set(None) would fail, so both are required here. */
  function Update(db: Db, id: RecipeId, v: Valid, draws: seq<ShortCode.Entropy>): (r: Result<Db, ShortCode.SaveError>)
    requires id in db.recipes
    requires v.tags.Some? && v.ingredients.Some?
    ensures db.recipes[id].shortCode != [] ==> r.Ok?
    ensures r.Ok? ==>
      && r.value.recipes.Keys == db.recipes.Keys && id in r.value.rows
      && r.value.recipes[id].tags == Elems(v.tags.value)
      && r.value.rows[id] == v.ingredients.value
      && (forall k :: k in db.recipes && k != id ==> r.value.recipes[k] == db.recipes[k])
  {
    RecipesWrite.Update(db, id, v, draws)
  }

  /** Whatever this version accepts fits the whole schema, amount bounds
      included. */
  lemma ValidatedAdmissible(db: Db, b: Bounds, p: Payload, m: Method)
    requires Validate(db, b, p, m).Ok?
    ensures RecipesWrite.Admissible(db, b, Validate(db, b, p, m).value)
    ensures m != PATCH ==> RecipesWrite.Complete(Validate(db, b, p, m).value)
    ensures var rows := Validate(db, b, p, m).value.ingredients.value;
      forall i :: 0 <= i < |rows| ==> InRange(rows[i].amount, b.minAmount, b.maxAmount)
  {
    var v := Validate(db, b, p, m).value;
    var items := p.ingredients.value;
    var rows := v.ingredients.value;
    forall i, j | 0 <= i < j < |rows| ensures rows[i].ingredient != rows[j].ingredient {
      assert RecipesWrite.Ids(items)[i] != RecipesWrite.Ids(items)[j];
    }
    forall i | 0 <= i < |rows|
      ensures rows[i].ingredient in db.ingredients && InRange(rows[i].amount, b.minAmount, b.maxAmount)
    {
      assert ItemOk(db, b, items[i], false);
    }
    forall t | t in Elems(v.tags.value) ensures t in db.tags.Keys {
      var i :| 0 <= i < |v.tags.value| && v.tags.value[i] == t;
      assert RecipesWrite.KnownTag(db, p.tags.value[i]);
    }
  }

  /** A create accepted by this version keeps every schema constraint,
      amount bounds included. */
  lemma CreateKeepsWellFormed(db: Db, b: Bounds, p: Payload, author: UserId, id: RecipeId, draws: seq<ShortCode.Entropy>)
    requires WellFormed(db, b)
    requires Validate(db, b, p, POST).Ok?
    requires author in db.users && id !in db.recipes
    requires Create(db, author, id, Validate(db, b, p, POST).value, draws).Ok?
    ensures WellFormed(Create(db, author, id, Validate(db, b, p, POST).value, draws).value, b)
  {
    var v := Validate(db, b, p, POST).value;
    ValidatedAdmissible(db, b, p, POST);
    RecipesWrite.CreatePreserves(db, b, author, id, v, draws);
    CreateKeepsAmounts(db, b, author, id, v, draws);
  }

  lemma CreateKeepsAmounts(db: Db, b: Bounds, author: UserId, id: RecipeId, v: Valid, draws: seq<ShortCode.Entropy>)
    requires AmountsInBounds(db, b)
    requires RecipesWrite.Complete(v) && id !in db.recipes
    requires forall i :: 0 <= i < |v.ingredients.value| ==> InRange(v.ingredients.value[i].amount, b.minAmount, b.maxAmount)
    requires Create(db, author, id, v, draws).Ok?
    ensures AmountsInBounds(Create(db, author, id, v, draws).value, b)
  {
    var d := Create(db, author, id, v, draws).value;
    assert forall k :: k in d.rows && k != id ==> d.rows[k] == db.rows[k];
  }

  /** When the lower bounds are at least 1, whatever this version accepts
      the recipes version accepts too, with the same validated data; the
      converse fails (RecipesWrite.AmountAboveMaximumStored). */
  lemma AcceptedByBothVersions(db: Db, b: Bounds, p: Payload, m: Method)
    requires b.minAmount >= 1 && b.minCookingTime >= 1
    requires Validate(db, b, p, m).Ok?
    ensures RecipesWrite.Validate(db, b, p, m).Ok?
    ensures RecipesWrite.Validate(db, b, p, m).value == Validate(db, b, p, m).value
  {
    var items := p.ingredients.value;
    forall i | 0 <= i < |items| ensures RecipesWrite.ItemOk(db, items[i]) {
      assert ItemOk(db, b, items[i], false);
    }
    assert RecipesWrite.Acceptable(db, b, p, m);
    RecipesWrite.ValidateAccepts(db, b, p, m);
  }

  // ------------------------------------------------------------ PATCH

  /** The answer to a write and the store it leaves behind. */
  datatype Outcome = Outcome(status: Status, db: Db)

  /** A PATCH with every nested amount required: 400 and nothing written on
      a refusal, otherwise update() on the validated data. */
  function Patch(db: Db, b: Bounds, id: RecipeId, p: Payload, draws: seq<ShortCode.Entropy>): (o: Outcome)
    requires id in db.recipes
    ensures o.status == BadRequest400 <==> Validate(db, b, p, PATCH).Err?
    ensures o.status != Ok200 ==> o.db == db
    ensures Validate(db, b, p, PATCH).Ok? && db.recipes[id].shortCode != [] ==> o.status == Ok200
    ensures o.status == Ok200 ==>
      && Validate(db, b, p, PATCH).Ok? && id in o.db.rows && id in o.db.recipes
      && o.db.rows[id] == Validate(db, b, p, PATCH).value.ingredients.value
      && o.db.recipes[id].tags == Elems(Validate(db, b, p, PATCH).value.tags.value)
  {
    match Validate(db, b, p, PATCH)
    case Err(_) => Outcome(BadRequest400, db)
    case Ok(v) =>
      match Update(db, id, v, draws)
      case Ok(d) => Outcome(Ok200, d)
      case Err(_) => Outcome(InternalError500, db)
  }

  /** A PATCH as written. When an item lacks its amount, update() has saved
      the sent fields, replaced the tag set and deleted every ingredient row
      of the recipe before its list comprehension reads item["amount"]; the
      KeyError is answered with 500 and those writes stay. */
  function PatchAsWritten(db: Db, b: Bounds, id: RecipeId, p: Payload, draws: seq<ShortCode.Entropy>): (o: Outcome)
    requires id in db.recipes
    ensures o.status == BadRequest400 <==> ValidateAsWritten(db, b, p, PATCH).Err?
    ensures o.status == BadRequest400 ==> o.db == db
    ensures ValidateAsWritten(db, b, p, PATCH).Ok? && !AmountsGiven(p.ingredients.value) ==> o.status == InternalError500
  {
    match ValidateAsWritten(db, b, p, PATCH)
    case Err(_) => Outcome(BadRequest400, db)
    case Ok(_) =>
      var items := p.ingredients.value;
      assert forall i :: 0 <= i < |items| ==> ItemOk(db, b, items[i], true);
      assert forall i :: 0 <= i < |p.tags.value| ==> RecipesWrite.KnownTag(db, p.tags.value[i]);
      if AmountsGiven(items) then
        match RecipesWrite.Update(db, id, ValidOf(p, RecipesWrite.ToRows(items)), draws)
        case Ok(d) => Outcome(Ok200, d)
        case Err(_) => Outcome(InternalError500, db)
      else
        match RecipesWrite.Update(db, id, ValidOf(p, []), draws)
        case Ok(d) => Outcome(InternalError500, d)
        case Err(_) => Outcome(InternalError500, db)
  }

  /** An update of validated rows keeps every other recipe's rows, so the
      amount bounds hold when the new rows are within them. */
  lemma UpdateKeepsAmounts(db: Db, b: Bounds, id: RecipeId, v: Valid, draws: seq<ShortCode.Entropy>)
    requires AmountsInBounds(db, b)
    requires id in db.recipes && v.ingredients.Some?
    requires forall i :: 0 <= i < |v.ingredients.value| ==> InRange(v.ingredients.value[i].amount, b.minAmount, b.maxAmount)
    requires RecipesWrite.Update(db, id, v, draws).Ok?
    ensures AmountsInBounds(RecipesWrite.Update(db, id, v, draws).value, b)
  {
    var d := RecipesWrite.Update(db, id, v, draws).value;
    forall k, i | k in d.rows && 0 <= i < |d.rows[k]|
      ensures InRange(d.rows[k][i].amount, b.minAmount, b.maxAmount)
    {
      if k != id {
        assert k in db.rows by {
          assert d.rows.Keys == db.rows.Keys + {id};
        }
      }
    }
  }

  /** A PATCH with every amount required keeps every schema constraint,
      amount bounds included. */
  lemma PatchKeepsWellFormed(db: Db, b: Bounds, id: RecipeId, p: Payload, draws: seq<ShortCode.Entropy>)
    requires WellFormed(db, b) && id in db.recipes
    ensures WellFormed(Patch(db, b, id, p, draws).db, b)
  {
    if Validate(db, b, p, PATCH).Ok? {
      var v := Validate(db, b, p, PATCH).value;
      ValidatedAdmissible(db, b, p, PATCH);
      RecipesWrite.UpdatePreserves(db, b, id, v, draws);
      UpdateKeepsAmounts(db, b, id, v, draws);
    }
  }

  /** With an amount in every item the field checks of the two versions
      agree. */
  lemma SkipIrrelevant(db: Db, b: Bounds, p: Payload, m: Method)
    requires p.ingredients.Some? ==> AmountsGiven(p.ingredients.value)
    ensures Acceptable(db, b, p, m, true) <==> Acceptable(db, b, p, m, false)
  {
    if p.ingredients.Some? {
      var items := p.ingredients.value;
      assert forall i :: 0 <= i < |items| ==> (ItemOk(db, b, items[i], true) <==> ItemOk(db, b, items[i], false));
    }
  }

  /** The two versions of a PATCH answer alike, and leave the same store,
      whenever no sent item lacks its amount. */
  lemma PatchVersionsAgree(db: Db, b: Bounds, id: RecipeId, p: Payload, draws: seq<ShortCode.Entropy>)
    requires id in db.recipes
    requires p.ingredients.Some? ==> AmountsGiven(p.ingredients.value)
    ensures PatchAsWritten(db, b, id, p, draws) == Patch(db, b, id, p, draws)
  {
    SkipIrrelevant(db, b, p, PATCH);
    ValidateAccepts(db, b, p, PATCH);
  }

  /** A PATCH that passes validation as written with an item lacking its
      amount: as written it ends in 500 with the recipe's new tag set and no
      ingredient rows at all, where requiring the amount refuses it with
      400 and writes nothing. */
  lemma PatchWithoutAmountLosesRows(db: Db, b: Bounds, id: RecipeId, p: Payload, draws: seq<ShortCode.Entropy>)
    requires id in db.recipes && db.recipes[id].shortCode != []
    requires ValidateAsWritten(db, b, p, PATCH).Ok?
    requires !AmountsGiven(p.ingredients.value)
    ensures var o := PatchAsWritten(db, b, id, p, draws);
      && o.status == InternalError500
      && id in o.db.rows && o.db.rows[id] == []
      && o.db.recipes[id].tags == Elems(RecipesWrite.ToTagIds(p.tags.value))
      && o.db.recipes.Keys == db.recipes.Keys
    ensures Patch(db, b, id, p, draws) == Outcome(BadRequest400, db)
  {
    var items := p.ingredients.value;
    var k :| 0 <= k < |items| && items[k].amount.None?;
    assert !ItemOk(db, b, items[k], false);
    ValidateAccepts(db, b, p, PATCH);
  }

  /** The request {"ingredients": [{"id": i}], "tags": [t]} as a PATCH on a
      recipe that has a short code, for a stored ingredient i and tag t. */
  lemma PatchItemWithoutAmount(db: Db, b: Bounds, id: RecipeId, i: nat, t: nat, draws: seq<ShortCode.Entropy>)
    requires id in db.recipes && db.recipes[id].shortCode != []
    requires i in db.ingredients && t in db.tags
    ensures var p := RecipesWrite.Payload(Some([RecipesWrite.Item(i, None)]), Some([t]), None, None, None);
      && PatchAsWritten(db, b, id, p, draws).status == InternalError500
      && PatchAsWritten(db, b, id, p, draws).db.rows[id] == []
      && Patch(db, b, id, p, draws) == Outcome(BadRequest400, db)
  {
    var p := RecipesWrite.Payload(Some([RecipesWrite.Item(i, None)]), Some([t]), None, None, None);
    assert ItemOk(db, b, p.ingredients.value[0], true);
    assert RecipesWrite.Ids(p.ingredients.value) == [i];
    assert Acceptable(db, b, p, PATCH, true);
    PatchWithoutAmountLosesRows(db, b, id, p, draws);
  }
}
