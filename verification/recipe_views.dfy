/** The recipe endpoints of backend/recipes/views.py that change the store
    or build a link: create (perform_create), update and partial update,
    destroy, and get_link; plus the link of backend/api/views.py, which
    Recipe.get_short_url builds.

    Every write first meets the view's permission (IsAuthenticated for an
    unsafe method: 401 for the anonymous user), then get_object (404 for an
    unknown recipe), then the view's own author test (403), then the write
    serializer (400), and only then touches the store. */
module RecipeViews {
  import opened Common
  import opened Schema
  import Text
  import ShortCode
  import RecipesWrite
  import Permissions

  /** The status of a response and the store after it. */
  datatype Outcome = Outcome(status: Status, db: Db)

  /** create with perform_create(author=request.user); id is the key the
      database hands the new row. */
  function CreateView(db: Db, b: Bounds, who: Requester, id: RecipeId, p: RecipesWrite.Payload,
                      draws: seq<ShortCode.Entropy>): (r: Outcome)
    requires id !in db.recipes
    ensures r.status == Created201 <==>
      who.Authenticated? && RecipesWrite.Validate(db, b, p, POST).Ok?
      && RecipesWrite.Create(db, who.id, id, RecipesWrite.Validate(db, b, p, POST).value, draws).Ok?
    ensures r.status == Created201 ==> id in r.db.recipes && r.db.recipes[id].author == who.id
    ensures r.status == Unauthorized401 <==> who.Anonymous?
    ensures r.status == BadRequest400 <==> who.Authenticated? && RecipesWrite.Validate(db, b, p, POST).Err?
    ensures r.status != Created201 ==> r.db == db
  {
    if who.Anonymous? then Outcome(Unauthorized401, db)
    else match RecipesWrite.Validate(db, b, p, POST)
      case Err(_) => Outcome(BadRequest400, db)
      case Ok(v) =>
        RecipesWrite.ValidatedAdmissible(db, b, p, POST);
        match RecipesWrite.Create(db, who.id, id, v, draws)
        case Err(_) => Outcome(InternalError500, db)
        case Ok(d) => Outcome(Created201, d)
  }

  /** update: PUT validates a full payload, PATCH a partial one. */
  function UpdateView(db: Db, b: Bounds, who: Requester, m: Method, id: RecipeId, p: RecipesWrite.Payload,
                      draws: seq<ShortCode.Entropy>): (r: Outcome)
    requires m == PUT || m == PATCH
    ensures r.status == Unauthorized401 <==> who.Anonymous?
    ensures r.status == NotFound404 <==> who.Authenticated? && id !in db.recipes
    ensures r.status == Forbidden403 <==>
      who.Authenticated? && id in db.recipes && db.recipes[id].author != who.id
    ensures r.status == Ok200 ==>
      && who.Authenticated? && id in db.recipes && db.recipes[id].author == who.id
      && RecipesWrite.Validate(db, b, p, m).Ok?
      && RecipesWrite.Update(db, id, RecipesWrite.Validate(db, b, p, m).value, draws) == Ok(r.db)
    ensures (&& who.Authenticated? && id in db.recipes && db.recipes[id].author == who.id
             && RecipesWrite.Validate(db, b, p, m).Ok? && db.recipes[id].shortCode != []) ==> r.status == Ok200
    ensures r.status != Ok200 ==> r.db == db
  {
    if who.Anonymous? then Outcome(Unauthorized401, db)
    else if id !in db.recipes then Outcome(NotFound404, db)
    else if db.recipes[id].author != who.id then Outcome(Forbidden403, db)
    else match RecipesWrite.Validate(db, b, p, m)
      case Err(_) => Outcome(BadRequest400, db)
      case Ok(v) =>
        match RecipesWrite.Update(db, id, v, draws)
        case Err(_) => Outcome(InternalError500, db)
        case Ok(d) => Outcome(Ok200, d)
  }

  /** destroy: the recipe and, by cascade, its rows and memberships go. */
  function DestroyView(db: Db, who: Requester, id: RecipeId): (r: Outcome)
    ensures r.status == NoContent204 <==> who.Authenticated? && id in db.recipes && db.recipes[id].author == who.id
    ensures r.status == NoContent204 ==> r.db == DeleteRecipe(db, id) && id !in r.db.recipes
    ensures r.status != NoContent204 ==> r.db == db
    ensures r.status == Unauthorized401 <==> who.Anonymous?
    ensures r.status == NotFound404 <==> who.Authenticated? && id !in db.recipes
  {
    if who.Anonymous? then Outcome(Unauthorized401, db)
    else if id !in db.recipes then Outcome(NotFound404, db)
    else if db.recipes[id].author != who.id then Outcome(Forbidden403, db)
    else Outcome(NoContent204, DeleteRecipe(db, id))
  }

  /** The view's checks refuse exactly what RecipePermission refuses for a
      stored recipe, with the status the framework gives a refusal. */
  lemma WritesRefusedAsRecipePermission(db: Db, b: Bounds, who: Requester, m: Method, id: RecipeId,
                                        p: RecipesWrite.Payload, draws: seq<ShortCode.Entropy>)
    requires m == PUT || m == PATCH
    requires id in db.recipes
    ensures var allowed := Permissions.RecipePermissionAllows(m, who, Some(db.recipes[id].author));
      && (UpdateView(db, b, who, m, id, p, draws).status in {Unauthorized401, Forbidden403} <==> !allowed)
      && (DestroyView(db, who, id).status in {Unauthorized401, Forbidden403} <==> !allowed)
      && (!allowed ==> UpdateView(db, b, who, m, id, p, draws).status == Permissions.Denied(who))
      && (!allowed ==> DestroyView(db, who, id).status == Permissions.Denied(who))
  {
    Permissions.RecipePermissionSummary(m, who, Some(db.recipes[id].author));
    Permissions.RecipePermissionSummary(DELETE, who, Some(db.recipes[id].author));
  }

  /** create keeps the store within its schema, the amount bounds aside
      (the write serializer does not check them). */
  lemma CreateViewKeepsWellFormed(db: Db, b: Bounds, who: Requester, id: RecipeId,
                                  p: RecipesWrite.Payload, draws: seq<ShortCode.Entropy>)
    requires WellFormedExceptAmounts(db, b)
    requires who.Authenticated? ==> who.id in db.users
    requires id !in db.recipes
    ensures WellFormedExceptAmounts(CreateView(db, b, who, id, p, draws).db, b)
  {
    var r := CreateView(db, b, who, id, p, draws);
    if r.status == Created201 {
      var v := RecipesWrite.Validate(db, b, p, POST).value;
      RecipesWrite.ValidatedAdmissible(db, b, p, POST);
      RecipesWrite.CreatePreserves(db, b, who.id, id, v, draws);
      assert r.db == RecipesWrite.Create(db, who.id, id, v, draws).value;
    }
  }

  /** update keeps the store within its schema, the amount bounds aside. */
  lemma UpdateViewKeepsWellFormed(db: Db, b: Bounds, who: Requester, m: Method, id: RecipeId,
                                  p: RecipesWrite.Payload, draws: seq<ShortCode.Entropy>)
    requires WellFormedExceptAmounts(db, b)
    requires m == PUT || m == PATCH
    ensures WellFormedExceptAmounts(UpdateView(db, b, who, m, id, p, draws).db, b)
  {
    var r := UpdateView(db, b, who, m, id, p, draws);
    if r.status == Ok200 {
      var v := RecipesWrite.Validate(db, b, p, m).value;
      RecipesWrite.ValidatedAdmissible(db, b, p, m);
      RecipesWrite.UpdatePreserves(db, b, id, v, draws);
    }
  }

  /** destroy keeps every constraint, the amount bounds included. */
  lemma DestroyKeepsWellFormed(db: Db, b: Bounds, who: Requester, id: RecipeId)
    requires WellFormed(db, b)
    ensures WellFormed(DestroyView(db, who, id).db, b)
  {
    DeleteRecipePreserves(db, b, id);
  }

  /** The link get_link of backend/recipes/views.py builds from the absolute
      URI of "/": "/api/" replaced by "/", trailing slashes dropped, then
      "/recipes/<id>". */
  function RecipesLink(base: string, id: RecipeId): (r: string)
    ensures exists prefix :: r == prefix + "/recipes/" + Text.NatToString(id)
                             && (prefix != [] ==> prefix[|prefix| - 1] != '/')
  {
    var prefix := Text.RStripChar(Text.ReplaceAll(base, "/api/", "/"), '/');
    prefix + "/recipes/" + Text.NatToString(id)
  }

  /** get_link of backend/recipes/views.py. It is a GET, and the view's own
      get_permissions, which returns no permission at all for a safe method,
      replaces the action's declared IsAuthenticated: anyone, logged in or
      not, gets the link of a stored recipe, and get_object answers 404 for
      an unknown one. */
  function GetLink(db: Db, who: Requester, base: string, id: RecipeId): (r: Result<string, Status>)
    ensures r.Err? <==> id !in db.recipes
    ensures r.Err? ==> r.error == NotFound404
    ensures r.Ok? ==> r.value == RecipesLink(base, id)
  {
    if id !in db.recipes then Err(NotFound404)
    else Ok(RecipesLink(base, id))
  }

  /** The recipe's key is read back from the end of its link. */
  lemma LinkNamesRecipe(base: string, id: RecipeId)
    ensures var r := RecipesLink(base, id); var n := |Text.NatToString(id)|;
      n <= |r| && (forall i :: |r| - n <= i < |r| ==> Text.IsDigit(r[i]))
      && Text.ParseNat(r[|r| - n..]) == id
  {
    var prefix := Text.RStripChar(Text.ReplaceAll(base, "/api/", "/"), '/');
    var digits := Text.NatToString(id);
    var r := prefix + "/recipes/" + digits;
    assert r[|r| - |digits|..] == digits;
    Text.ParseNatToString(id);
  }

  /** Recipe.get_short_url, used by get_link of backend/api/views.py: the
      absolute URI of "/recipes/<id>/" on the request's origin. Between
      "/recipes/" and the final slash stand the decimal digits of the
      recipe's key, and only those. */
  function ApiLink(origin: string, id: RecipeId): (r: string)
    ensures |r| > |origin| + 9 && r[..|origin| + 9] == origin + "/recipes/" && r[|r| - 1] == '/'
    ensures forall i :: |origin| + 9 <= i < |r| - 1 ==> Text.IsDigit(r[i])
    ensures Text.ParseNat(r[|origin| + 9..|r| - 1]) == id
  {
    var digits := Text.NatToString(id);
    var r := origin + "/recipes/" + digits + "/";
    assert r[|origin| + 9..|r| - 1] == digits;
    Text.ParseNatToString(id);
    r
  }

  /** On an origin without "/api/" and without a trailing slash, the two
      versions' links differ only by the api version's final slash. */
  lemma {:induction false} LinksCompared(origin: string, id: RecipeId)
    requires !Text.Contains(origin + "/", "/api/")
    requires origin != [] ==> origin[|origin| - 1] != '/'
    ensures RecipesLink(origin + "/", id) + "/" == ApiLink(origin, id)
  {
    Text.ReplaceAbsent(origin + "/", "/api/", "/");
    assert (origin + "/")[..|origin + "/"| - 1] == origin;
    assert Text.RStripChar(origin + "/", '/') == Text.RStripChar(origin, '/');
    assert Text.RStripChar(origin, '/') == origin;
  }
}
