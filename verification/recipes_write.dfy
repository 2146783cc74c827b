/** RecipeWriteSerializer of backend/recipes/serializers.py: validation of a
    recipe create (POST), full update (PUT) or partial update (PATCH), and
    the create and update that write the validated data.

    The framework validates field by field first, collecting one error per
    failing field, and only then runs the object-level validate(). The
    fields are: ingredients, a non-empty list of plain dicts checked by
    validate_ingredients; tags, a non-empty list of existing tag keys
    checked by validate_tags; name and text, non-blank strings with
    surrounding whitespace trimmed; cooking_time, an integer held to the
    model's [MIN_COOKING_TIME, MAX_COOKING_TIME] validators and then to
    validate_cooking_time. A PATCH skips absent fields, so validate()
    demands both lists itself. The ingredient dicts do not carry the
    model's amount validators: only amount >= 1 is checked. */
module RecipesWrite {
  import opened Common
  import opened Schema
  import Text
  import ShortCode

  /** One dict of the "ingredients" list: its "id" and, if given, "amount". */
  datatype Item = Item(id: int, amount: Option<int>)

  /** The request body; an absent key is None. */
  datatype Payload = Payload(
    ingredients: Option<seq<Item>>,
    tags: Option<seq<int>>,
    name: Option<string>,
    text: Option<string>,
    cookingTime: Option<int>)

  datatype Field = Ingredients | Tags | Name | Text | CookingTime

  datatype Problem =
    | Required
    | Blank
    | Empty
    | Repeated
    | UnknownIngredient(ingredient: int)
    | AmountBelowOne
    | UnknownTag(tag: int)
    | OutOfBounds
    | CookingTimeBelowOne

  datatype FieldError = FieldError(field: Field, problem: Problem)

  datatype Error =
    | FieldErrors(errors: seq<FieldError>)
    | MissingOnPatch(field: Field)

  /** validated_data: the fields that were sent, converted to model values. */
  datatype Valid = Valid(
    ingredients: Option<seq<RecipeIngredient>>,
    tags: Option<seq<TagId>>,
    name: Option<string>,
    text: Option<string>,
    cookingTime: Option<int>)

  function Ids(items: seq<Item>): (ids: seq<int>)
    ensures |ids| == |items|
    ensures forall i :: 0 <= i < |items| ==> ids[i] == items[i].id
  {
    seq(|items|, i requires 0 <= i < |items| => items[i].id)
  }

  predicate KnownIngredient(db: Db, id: int) {
    id >= 0 && id as nat in db.ingredients
  }

  predicate KnownTag(db: Db, id: int) {
    id >= 0 && id as nat in db.tags
  }

  /** The per-item test of validate_ingredients; a missing amount reads as 0. */
  predicate ItemOk(db: Db, item: Item) {
    KnownIngredient(db, item.id) && item.amount.GetOr(0) >= 1
  }

  /** The loop of validate_ingredients: the first item that names an unknown
      ingredient or has an amount below 1. */
  function ItemsProblem(db: Db, items: seq<Item>): (r: Option<Problem>)
    ensures r.None? <==> forall i :: 0 <= i < |items| ==> ItemOk(db, items[i])
  {
    if items == [] then None
    else if !KnownIngredient(db, items[0].id) then Some(UnknownIngredient(items[0].id))
    else if items[0].amount.GetOr(0) < 1 then Some(AmountBelowOne)
    else
      var r := ItemsProblem(db, items[1..]);
      assert forall i :: 1 <= i < |items| ==> items[i] == items[1..][i - 1];
      r
  }

  /** The ingredients field: non-empty, no repeated id, then the item loop. */
  function IngredientsProblem(db: Db, items: seq<Item>): Option<Problem> {
    if items == [] then Some(Empty)
    else if HasRepeats(Ids(items)) then Some(Repeated)
    else ItemsProblem(db, items)
  }

  /** The first tag key with no tag behind it. */
  function UnknownTagIn(db: Db, tags: seq<int>): (r: Option<int>)
    ensures r.None? <==> forall i :: 0 <= i < |tags| ==> KnownTag(db, tags[i])
    ensures r.Some? ==> r.value in tags && !KnownTag(db, r.value)
  {
    if tags == [] then None
    else if !KnownTag(db, tags[0]) then Some(tags[0])
    else
      var r := UnknownTagIn(db, tags[1..]);
      assert forall i :: 1 <= i < |tags| ==> tags[i] == tags[1..][i - 1];
      r
  }

  /** The tags field: non-empty, every key known, then validate_tags. */
  function TagsProblem(db: Db, tags: seq<int>): Option<Problem> {
    if tags == [] then Some(Empty)
    else if UnknownTagIn(db, tags).Some? then Some(UnknownTag(UnknownTagIn(db, tags).value))
    else if HasRepeats(tags) then Some(Repeated)
    else None
  }

  /** A string field: blank after trimming is refused. */
  function StringProblem(s: string): Option<Problem> {
    if Text.Strip(s) == [] then Some(Blank) else None
  }

  /** The cooking_time field: the model validators, then validate_cooking_time. */
  function CookingTimeProblem(b: Bounds, t: int): Option<Problem> {
    if !SmallPositive(t) || !InRange(t, b.minCookingTime, b.maxCookingTime) then Some(OutOfBounds)
    else if t < 1 then Some(CookingTimeBelowOne)
    else None
  }

  /** The error of one field: Required when it is absent and the request is
      not partial, otherwise the field's own problem. */
  function Check<T>(f: Field, v: Option<T>, partial: bool, problem: T -> Option<Problem>): seq<FieldError> {
    match v
    case None => if partial then [] else [FieldError(f, Required)]
    case Some(x) => match problem(x) { case None => [] case Some(e) => [FieldError(f, e)] }
  }

  /** The field errors, in the serializer's field order. */
  function FieldErrorsOf(db: Db, b: Bounds, p: Payload, partial: bool): seq<FieldError> {
    Check(Ingredients, p.ingredients, partial, items => IngredientsProblem(db, items))
    + Check(Tags, p.tags, partial, tags => TagsProblem(db, tags))
    + Check(Name, p.name, partial, StringProblem)
    + Check(Text, p.text, partial, StringProblem)
    + Check(CookingTime, p.cookingTime, partial, t => CookingTimeProblem(b, t))
  }

  /** An ingredients list that passes: non-empty, no repeated id, every
      item known with an amount of at least 1. */
  predicate IngredientsFine(db: Db, items: seq<Item>) {
    |items| > 0 && Distinct(Ids(items)) && forall i :: 0 <= i < |items| ==> ItemOk(db, items[i])
  }

  /** A tags list that passes: non-empty, no repeats, every tag known. */
  predicate TagsFine(db: Db, tags: seq<int>) {
    |tags| > 0 && Distinct(tags) && forall i :: 0 <= i < |tags| ==> KnownTag(db, tags[i])
  }

  /** A cooking time that passes the model validators and the field's own. */
  predicate CookingTimeFine(b: Bounds, t: int) {
    SmallPositive(t) && InRange(t, b.minCookingTime, b.maxCookingTime) && t >= 1
  }

  /** The payload a request of method m may carry, stated field by field:
      both lists present and passing; strings not blank; cooking time
      passing; and on a create or full update every field present. */
  ghost predicate Acceptable(db: Db, b: Bounds, p: Payload, m: Method) {
    && p.ingredients.Some? && IngredientsFine(db, p.ingredients.value)
    && p.tags.Some? && TagsFine(db, p.tags.value)
    && (p.name.Some? ==> Text.Strip(p.name.value) != [])
    && (p.text.Some? ==> Text.Strip(p.text.value) != [])
    && (p.cookingTime.Some? ==> CookingTimeFine(b, p.cookingTime.value))
    && (m != PATCH ==> p.name.Some? && p.text.Some? && p.cookingTime.Some?)
  }

  function ToRows(items: seq<Item>): (rows: seq<RecipeIngredient>)
    requires forall i :: 0 <= i < |items| ==> items[i].id >= 0 && items[i].amount.Some? && items[i].amount.value >= 0
    ensures |rows| == |items|
    ensures forall i :: 0 <= i < |items| ==>
      rows[i].ingredient == items[i].id && items[i].amount == Some(rows[i].amount as int)
  {
    seq(|items|, i requires 0 <= i < |items| => RecipeIngredient(items[i].id as nat, items[i].amount.value as nat))
  }

  function ToTagIds(tags: seq<int>): (ids: seq<TagId>)
    requires forall i :: 0 <= i < |tags| ==> tags[i] >= 0
    ensures |ids| == |tags| && forall i :: 0 <= i < |tags| ==> ids[i] == tags[i]
  {
    seq(|tags|, i requires 0 <= i < |tags| => tags[i] as nat)
  }

  function Trimmed(s: Option<string>): Option<string> {
    match s case None => None case Some(x) => Some(Text.Strip(x))
  }

  lemma CheckEmpty<T>(f: Field, v: Option<T>, partial: bool, problem: T -> Option<Problem>)
    ensures Check(f, v, partial, problem) == [] <==>
      (v.None? ==> partial) && (v.Some? ==> problem(v.value).None?)
  {
  }

  lemma IngredientsOk(db: Db, items: seq<Item>)
    ensures IngredientsProblem(db, items).None? <==> IngredientsFine(db, items)
  {
    RepeatsIffNotDistinct(Ids(items));
  }

  lemma TagsOk(db: Db, tags: seq<int>)
    ensures TagsProblem(db, tags).None? <==> TagsFine(db, tags)
  {
    RepeatsIffNotDistinct(tags);
  }

  /** No field reports an error exactly when every sent field passes its
      checks and, unless the request is partial, every field was sent. */
  lemma FieldErrorsEmpty(db: Db, b: Bounds, p: Payload, partial: bool)
    ensures FieldErrorsOf(db, b, p, partial) == [] <==>
      && (p.ingredients.None? ==> partial)
      && (p.ingredients.Some? ==> IngredientsFine(db, p.ingredients.value))
      && (p.tags.None? ==> partial)
      && (p.tags.Some? ==> TagsFine(db, p.tags.value))
      && (p.name.None? ==> partial) && (p.name.Some? ==> Text.Strip(p.name.value) != [])
      && (p.text.None? ==> partial) && (p.text.Some? ==> Text.Strip(p.text.value) != [])
      && (p.cookingTime.None? ==> partial)
      && (p.cookingTime.Some? ==> CookingTimeFine(b, p.cookingTime.value))
  {
    CheckEmpty(Ingredients, p.ingredients, partial, items => IngredientsProblem(db, items));
    CheckEmpty(Tags, p.tags, partial, tags => TagsProblem(db, tags));
    CheckEmpty(Name, p.name, partial, StringProblem);
    CheckEmpty(Text, p.text, partial, StringProblem);
    CheckEmpty(CookingTime, p.cookingTime, partial, t => CookingTimeProblem(b, t));
    if p.ingredients.Some? { IngredientsOk(db, p.ingredients.value); }
    if p.tags.Some? { TagsOk(db, p.tags.value); }
  }

  /** Serializer validation of a request with method m. */
  function Validate(db: Db, b: Bounds, p: Payload, m: Method): (r: Result<Valid, Error>)
    ensures r.Ok? ==> Acceptable(db, b, p, m)
    ensures r.Ok? ==>
      && r.value.ingredients == Some(ToRows(p.ingredients.value))
      && r.value.tags == Some(ToTagIds(p.tags.value))
      && r.value.name == Trimmed(p.name) && r.value.text == Trimmed(p.text)
      && r.value.cookingTime == p.cookingTime
  {
    var errs := FieldErrorsOf(db, b, p, m == PATCH);
    FieldErrorsEmpty(db, b, p, m == PATCH);
    if errs != [] then Err(FieldErrors(errs))
    else if m == PATCH && p.ingredients.None? then Err(MissingOnPatch(Ingredients))
    else if m == PATCH && p.tags.None? then Err(MissingOnPatch(Tags))
    else
      assert forall i :: 0 <= i < |p.ingredients.value| ==> ItemOk(db, p.ingredients.value[i]);
      assert forall i :: 0 <= i < |p.tags.value| ==> KnownTag(db, p.tags.value[i]);
      Ok(Valid(Some(ToRows(p.ingredients.value)), Some(ToTagIds(p.tags.value)),
               Trimmed(p.name), Trimmed(p.text), p.cookingTime))
  }

  /** Validation accepts exactly the acceptable payloads; a PATCH whose
      fields pass but that lacks the ingredients list is refused by
      validate() itself. */
  lemma ValidateAccepts(db: Db, b: Bounds, p: Payload, m: Method)
    ensures Validate(db, b, p, m).Ok? <==> Acceptable(db, b, p, m)
    ensures m == PATCH && FieldErrorsOf(db, b, p, true) == [] && p.ingredients.None? ==>
      Validate(db, b, p, m) == Err(MissingOnPatch(Ingredients))
  {
    FieldErrorsEmpty(db, b, p, m == PATCH);
  }

  /** An empty ingredient or tag list is reported as a field error of its
      own field, whatever the rest of the payload holds. */
  lemma EmptyListsRefused(db: Db, b: Bounds, p: Payload, m: Method)
    ensures p.ingredients == Some([]) ==>
      var r := Validate(db, b, p, m); r.Err? && r.error.FieldErrors? && FieldError(Ingredients, Empty) in r.error.errors
    ensures p.tags == Some([]) ==>
      var r := Validate(db, b, p, m); r.Err? && r.error.FieldErrors? && FieldError(Tags, Empty) in r.error.errors
  {
    var partial := m == PATCH;
    var errs := FieldErrorsOf(db, b, p, partial);
    var ing := Check(Ingredients, p.ingredients, partial, items => IngredientsProblem(db, items));
    var tgs := Check(Tags, p.tags, partial, tags => TagsProblem(db, tags));
    assert errs == ing + tgs + (errs[|ing| + |tgs|..]);
    if p.ingredients == Some([]) {
      assert ing == [FieldError(Ingredients, Empty)];
      assert errs[0] == FieldError(Ingredients, Empty);
    }
    if p.tags == Some([]) {
      assert tgs == [FieldError(Tags, Empty)];
      assert errs[|ing|] == FieldError(Tags, Empty);
    }
  }

  /** Validated data of a create: the create pops both lists and the model
      needs every field. */
  predicate Complete(v: Valid) {
    v.ingredients.Some? && v.tags.Some? && v.name.Some? && v.text.Some? && v.cookingTime.Some?
  }

  /** create(): the recipe row (saved, so it receives a short code) authored
      by the requester, its tag set, and one ingredient row per item. */
  function Create(db: Db, author: UserId, id: RecipeId, v: Valid, draws: seq<ShortCode.Entropy>): (r: Result<Db, ShortCode.SaveError>)
    requires Complete(v)
    requires id !in db.recipes
    ensures r.Ok? ==>
      && id in r.value.recipes
      && r.value == Insert(db, author, id, v, r.value.recipes[id].shortCode)
      && r.value.recipes[id].shortCode != []
      && r.value.recipes[id].shortCode !in ShortCode.StoredCodes(db)
  {
    match ShortCode.AssignedCode(ShortCode.StoredCodes(db), [], draws)
    case Err(e) => Err(e)
    case Ok(code) => Ok(Insert(db, author, id, v, code))
  }

  /** The writes of create() once the save has drawn the short code. */
  function Insert(db: Db, author: UserId, id: RecipeId, v: Valid, code: string): (d: Db)
    requires Complete(v)
    ensures id in d.recipes && id in d.rows
    ensures d.recipes[id].author == author && d.recipes[id].shortCode == code
    ensures d.recipes[id].tags == Elems(v.tags.value) && d.rows[id] == v.ingredients.value
    ensures d.recipes[id].cookingTime == v.cookingTime.value
    ensures d.recipes.Keys == db.recipes.Keys + {id}
    ensures forall k :: k in db.recipes && k != id ==> d.recipes[k] == db.recipes[k]
    ensures d == db.(recipes := d.recipes, rows := d.rows)
  {
    var recipe := Recipe(author, v.name.value, v.text.value, v.cookingTime.value, Elems(v.tags.value), code);
    db.(recipes := db.recipes[id := recipe], rows := db.rows[id := v.ingredients.value])
  }

  /** update(): the fields that were sent overwrite the recipe's, the save
      keeps the stored short code, a sent tag list replaces the tag set and a
      sent ingredient list replaces all ingredient rows; a collection that
      was not sent is left as it was. */
  function Update(db: Db, id: RecipeId, v: Valid, draws: seq<ShortCode.Entropy>): (r: Result<Db, ShortCode.SaveError>)
    requires id in db.recipes
    ensures db.recipes[id].shortCode != [] ==> r.Ok?
    ensures r.Ok? ==>
      && r.value.recipes.Keys == db.recipes.Keys
      && (forall k :: k in db.recipes && k != id ==> r.value.recipes[k] == db.recipes[k])
      && (forall k :: k in db.rows && k != id ==> k in r.value.rows && r.value.rows[k] == db.rows[k])
      && r.value.recipes[id].author == db.recipes[id].author
      && (v.name.Some? ==> r.value.recipes[id].name == v.name.value)
      && (v.name.None? ==> r.value.recipes[id].name == db.recipes[id].name)
      && (v.text.Some? ==> r.value.recipes[id].text == v.text.value)
      && (v.text.None? ==> r.value.recipes[id].text == db.recipes[id].text)
      && (v.cookingTime.Some? ==> r.value.recipes[id].cookingTime == v.cookingTime.value)
      && (v.cookingTime.None? ==> r.value.recipes[id].cookingTime == db.recipes[id].cookingTime)
      && (db.recipes[id].shortCode != [] ==> r.value.recipes[id].shortCode == db.recipes[id].shortCode)
      && (v.tags.Some? ==> r.value.recipes[id].tags == Elems(v.tags.value))
      && (v.tags.None? ==> r.value.recipes[id].tags == db.recipes[id].tags)
      && (v.ingredients.Some? ==> id in r.value.rows && r.value.rows[id] == v.ingredients.value)
      && (v.ingredients.None? ==> r.value.rows == db.rows)
      && r.value == db.(recipes := r.value.recipes, rows := r.value.rows)
  {
    match ShortCode.AssignedCode(ShortCode.StoredCodes(db), db.recipes[id].shortCode, draws)
    case Err(e) => Err(e)
    case Ok(code) => Ok(Overwrite(db, id, v, code))
  }

  /** The writes of update() once the save has settled the short code. */
  function Overwrite(db: Db, id: RecipeId, v: Valid, code: string): Db
    requires id in db.recipes
  {
    var prev := db.recipes[id];
    var saved := prev.(name := v.name.GetOr(prev.name), text := v.text.GetOr(prev.text),
                      cookingTime := v.cookingTime.GetOr(prev.cookingTime), shortCode := code);
    var tagged := if v.tags.Some? then saved.(tags := Elems(v.tags.value)) else saved;
    var rows := if v.ingredients.Some? then db.rows[id := v.ingredients.value] else db.rows;
    db.(recipes := db.recipes[id := tagged], rows := rows)
  }

  /** Validated data that fits the schema: ingredient rows name known
      ingredients, each once; tags are known;
      the cooking time is within its bounds. */
  predicate Admissible(db: Db, b: Bounds, v: Valid) {
    && (v.ingredients.Some? ==>
          && (forall i :: 0 <= i < |v.ingredients.value| ==> v.ingredients.value[i].ingredient in db.ingredients)
          && (forall i, j :: 0 <= i < j < |v.ingredients.value| ==>
                v.ingredients.value[i].ingredient != v.ingredients.value[j].ingredient))
    && (v.tags.Some? ==> Elems(v.tags.value) <= db.tags.Keys)
    && (v.cookingTime.Some? ==> InRange(v.cookingTime.value, b.minCookingTime, b.maxCookingTime))
  }

  /** Whatever validation accepts fits the schema (amount bounds aside), and
      a create or full update carries every field. */
  lemma ValidatedAdmissible(db: Db, b: Bounds, p: Payload, m: Method)
    requires Validate(db, b, p, m).Ok?
    ensures Admissible(db, b, Validate(db, b, p, m).value)
    ensures m != PATCH ==> Complete(Validate(db, b, p, m).value)
  {
    var v := Validate(db, b, p, m).value;
    var items := p.ingredients.value;
    var rows := v.ingredients.value;
    forall i, j | 0 <= i < j < |rows| ensures rows[i].ingredient != rows[j].ingredient {
      assert Ids(items)[i] != Ids(items)[j];
    }
    forall i | 0 <= i < |rows| ensures rows[i].ingredient in db.ingredients {
      assert ItemOk(db, items[i]);
    }
    forall t | t in Elems(v.tags.value) ensures t in db.tags.Keys {
      var i :| 0 <= i < |v.tags.value| && v.tags.value[i] == t;
      assert KnownTag(db, p.tags.value[i]);
    }
  }

  /** create() on admissible data keeps every schema constraint other than
      the amount bounds. */
  lemma CreatePreserves(db: Db, b: Bounds, author: UserId, id: RecipeId, v: Valid, draws: seq<ShortCode.Entropy>)
    requires WellFormedExceptAmounts(db, b)
    requires Complete(v) && Admissible(db, b, v)
    requires author in db.users && id !in db.recipes
    requires Create(db, author, id, v, draws).Ok?
    ensures WellFormedExceptAmounts(Create(db, author, id, v, draws).value, b)
  {
    var code := ShortCode.AssignedCode(ShortCode.StoredCodes(db), [], draws).value;
    assert Create(db, author, id, v, draws) == Ok(Insert(db, author, id, v, code));
    var recipe := Recipe(author, v.name.value, v.text.value, v.cookingTime.value, Elems(v.tags.value), []);
    ShortCode.SaveKeepsCodesUnique(db, id, recipe, draws);
    assert ShortCodesValid(Insert(db, author, id, v, code));
    InsertTimes(db, b, author, id, v, code);
    InsertRows(db, b, author, id, v, code);
    InsertKeys(db, b, author, id, v, code);
    var d := Insert(db, author, id, v, code);
    assert d.users == db.users && d.tags == db.tags && d.ingredients == db.ingredients && d.follows == db.follows;
  }

  lemma InsertTimes(db: Db, b: Bounds, author: UserId, id: RecipeId, v: Valid, code: string)
    requires CookingTimesInBounds(db, b) && Complete(v) && Admissible(db, b, v)
    ensures CookingTimesInBounds(Insert(db, author, id, v, code), b)
  {
  }

  lemma InsertRows(db: Db, b: Bounds, author: UserId, id: RecipeId, v: Valid, code: string)
    requires UniqueRows(db) && Complete(v) && Admissible(db, b, v)
    ensures UniqueRows(Insert(db, author, id, v, code))
  {
    var d := Insert(db, author, id, v, code);
    assert forall k :: k in d.rows && k != id ==> d.rows[k] == db.rows[k];
  }

  lemma InsertKeys(db: Db, b: Bounds, author: UserId, id: RecipeId, v: Valid, code: string)
    requires ForeignKeys(db) && Complete(v) && Admissible(db, b, v)
    requires author in db.users && id !in db.recipes
    ensures ForeignKeys(Insert(db, author, id, v, code))
  {
    var d := Insert(db, author, id, v, code);
    forall k | k in d.recipes ensures d.recipes[k].author in d.users && d.recipes[k].tags <= d.tags.Keys {
      if k != id { assert d.recipes[k] == db.recipes[k]; }
    }
    forall k, i | k in d.rows && 0 <= i < |d.rows[k]| ensures d.rows[k][i].ingredient in d.ingredients {
      if k != id { assert d.rows[k] == db.rows[k]; }
    }
  }

  /** update() on admissible data keeps every schema constraint other than
      the amount bounds. */
  lemma UpdatePreserves(db: Db, b: Bounds, id: RecipeId, v: Valid, draws: seq<ShortCode.Entropy>)
    requires WellFormedExceptAmounts(db, b)
    requires Admissible(db, b, v)
    requires id in db.recipes
    ensures Update(db, id, v, draws).Ok?
    ensures WellFormedExceptAmounts(Update(db, id, v, draws).value, b)
  {
    assert Update(db, id, v, draws) == Ok(Overwrite(db, id, v, db.recipes[id].shortCode));
    OverwritePreserves(db, b, id, v);
  }

  lemma OverwritePreserves(db: Db, b: Bounds, id: RecipeId, v: Valid)
    requires WellFormedExceptAmounts(db, b)
    requires Admissible(db, b, v)
    requires id in db.recipes
    ensures WellFormedExceptAmounts(Overwrite(db, id, v, db.recipes[id].shortCode), b)
  {
    var d := Overwrite(db, id, v, db.recipes[id].shortCode);
    OverwriteCodes(db, id, v);
    OverwriteTimes(db, b, id, v);
    OverwriteRows(db, b, id, v);
    OverwriteKeys(db, b, id, v);
    assert d.users == db.users && d.tags == db.tags && d.ingredients == db.ingredients && d.follows == db.follows;
  }

  lemma OverwriteCodes(db: Db, id: RecipeId, v: Valid)
    requires ShortCodesValid(db) && id in db.recipes
    ensures ShortCodesValid(Overwrite(db, id, v, db.recipes[id].shortCode))
  {
    var d := Overwrite(db, id, v, db.recipes[id].shortCode);
    assert forall k :: k in d.recipes ==> d.recipes[k].shortCode == db.recipes[k].shortCode;
  }

  lemma OverwriteTimes(db: Db, b: Bounds, id: RecipeId, v: Valid)
    requires CookingTimesInBounds(db, b) && Admissible(db, b, v) && id in db.recipes
    ensures CookingTimesInBounds(Overwrite(db, id, v, db.recipes[id].shortCode), b)
  {
    var d := Overwrite(db, id, v, db.recipes[id].shortCode);
    assert forall k :: k in d.recipes && k != id ==> d.recipes[k] == db.recipes[k];
  }

  lemma OverwriteRows(db: Db, b: Bounds, id: RecipeId, v: Valid)
    requires UniqueRows(db) && Admissible(db, b, v) && id in db.recipes
    ensures UniqueRows(Overwrite(db, id, v, db.recipes[id].shortCode))
  {
    var d := Overwrite(db, id, v, db.recipes[id].shortCode);
    assert forall k :: k in d.rows && k != id ==> d.rows[k] == db.rows[k];
  }

  lemma OverwriteKeys(db: Db, b: Bounds, id: RecipeId, v: Valid)
    requires ForeignKeys(db) && Admissible(db, b, v) && id in db.recipes
    ensures ForeignKeys(Overwrite(db, id, v, db.recipes[id].shortCode))
  {
    var d := Overwrite(db, id, v, db.recipes[id].shortCode);
    forall k | k in d.recipes ensures d.recipes[k].author in d.users && d.recipes[k].tags <= d.tags.Keys {
      if k != id { assert d.recipes[k] == db.recipes[k]; }
    }
    forall k, i | k in d.rows && 0 <= i < |d.rows[k]| ensures d.rows[k][i].ingredient in d.ingredients {
      if k != id { assert d.rows[k] == db.rows[k]; }
    }
  }

  /** A create payload whose only ingredient asks for MAX_AMOUNT + 1. */
  function OverMaximum(b: Bounds, k: IngredientId, t: TagId, name: string, text: string): Payload {
    Payload(Some([Item(k, Some(b.maxAmount + 1))]), Some([t]), Some(name), Some(text), Some(1))
  }

  lemma OverMaximumAccepted(db: Db, b: Bounds, k: IngredientId, t: TagId, name: string, text: string)
    requires ValidBounds(b) && b.minCookingTime <= 1 <= b.maxCookingTime
    requires k in db.ingredients && t in db.tags
    requires Text.Strip(name) != [] && Text.Strip(text) != []
    ensures Acceptable(db, b, OverMaximum(b, k, t, name, text), POST)
  {
    var items := [Item(k, Some(b.maxAmount + 1))];
    assert IngredientsFine(db, items) by {
      assert Ids(items) == [k];
      assert ItemOk(db, items[0]);
    }
    assert TagsFine(db, [t]) by {
      assert KnownTag(db, [t][0]);
    }
    assert CookingTimeFine(b, 1);
  }

  /** The payload of OverMaximum validates to one row holding the amount
      above the maximum. */
  lemma OverMaximumValidated(db: Db, b: Bounds, k: IngredientId, t: TagId, name: string, text: string)
    returns (v: Valid)
    requires ValidBounds(b) && b.minCookingTime <= 1 <= b.maxCookingTime
    requires k in db.ingredients && t in db.tags
    requires Text.Strip(name) != [] && Text.Strip(text) != []
    ensures Validate(db, b, OverMaximum(b, k, t, name, text), POST) == Ok(v)
    ensures Complete(v) && |v.ingredients.value| == 1 && v.ingredients.value[0].amount == b.maxAmount + 1
  {
    var p := OverMaximum(b, k, t, name, text);
    OverMaximumAccepted(db, b, k, t, name, text);
    ValidateAccepts(db, b, p, POST);
    v := Validate(db, b, p, POST).value;
    assert v.ingredients.value == ToRows([Item(k, Some(b.maxAmount + 1))]);
  }

  /** The ingredient dicts are not held to MAX_AMOUNT: a create whose only
      ingredient asks for MAX_AMOUNT + 1 passes validation and stores a row
      outside the model's amount bounds. MAX_AMOUNT is taken below the
      column's 32767, so that the amount still fits the column. */
  lemma AmountAboveMaximumStored(db: Db, b: Bounds, k: IngredientId, t: TagId, name: string, text: string,
                                 author: UserId, id: RecipeId, draws: seq<ShortCode.Entropy>)
    requires ValidBounds(b) && b.minCookingTime <= 1 <= b.maxCookingTime
    requires b.maxAmount < 32767
    requires k in db.ingredients && t in db.tags && id !in db.recipes
    requires Text.Strip(name) != [] && Text.Strip(text) != []
    ensures Validate(db, b, OverMaximum(b, k, t, name, text), POST).Ok?
    ensures var v := Validate(db, b, OverMaximum(b, k, t, name, text), POST).value;
      Create(db, author, id, v, draws).Ok? ==> !AmountsInBounds(Create(db, author, id, v, draws).value, b)
  {
    var v := OverMaximumValidated(db, b, k, t, name, text);
    if Create(db, author, id, v, draws).Ok? {
      var d := Create(db, author, id, v, draws).value;
      assert d.rows[id] == v.ingredients.value;
      assert d.rows[id][0].amount == b.maxAmount + 1;
    }
  }
}
