/** The authorisation decisions: RecipePermission and UserPermission of
    backend/api/permissions.py, and the get_permissions and
    get_serializer_class choices of the three view sets. A refused check is
    answered 401 when the request is anonymous and 403 otherwise, as the
    framework's permission_denied does. */
module Permissions {
  import opened Common

  /** The permission classes a view hands back. IsAuthorOrReadOnly is named
      by backend/api/views.py but defined in no file of this model, so it
      stays a label. */
  datatype Guard = AllowAny | IsAuthenticated | IsAuthorOrReadOnly

  /** What AllowAny and IsAuthenticated decide. */
  function Passes(g: Guard, who: Requester): (ok: bool)
    requires g != IsAuthorOrReadOnly
    ensures ok <==> g == AllowAny || who.Authenticated?
  {
    match g
    case AllowAny => true
    case IsAuthenticated => who.IsAuthenticated()
  }

  /** The status of a refusal. */
  function Denied(who: Requester): (s: Status)
    ensures s == Unauthorized401 <==> who.Anonymous?
    ensures s == Unauthorized401 || s == Forbidden403
  {
    if who.Anonymous? then Unauthorized401 else Forbidden403
  }

  /** RecipePermission.has_permission. */
  function RecipeHasPermission(m: Method, who: Requester): (ok: bool)
    ensures IsSafe(m) ==> ok
    ensures m == POST ==> (ok <==> who.Authenticated?)
    ensures !IsSafe(m) && m != POST ==> ok
  {
    if IsSafe(m) then true
    else if m == POST then who.IsAuthenticated()
    else true
  }

  /** RecipePermission.has_object_permission: obj.author == request.user,
      which the anonymous user never is. */
  function RecipeHasObjectPermission(m: Method, who: Requester, author: UserId): (ok: bool)
    ensures ok <==> IsSafe(m) || (who.Authenticated? && who.id == author)
  {
    if IsSafe(m) then true
    else match who
      case Anonymous => false
      case Authenticated(id) => id == author
  }

  /** RecipePermission as the framework applies it: the view-level check,
      then the object-level one when the request is about a stored recipe
      (author is that recipe's author). */
  function RecipePermissionAllows(m: Method, who: Requester, author: Option<UserId>): bool {
    RecipeHasPermission(m, who) && (author.Some? ==> RecipeHasObjectPermission(m, who, author.value))
  }

  /** Reading is open; creating needs a login; changing or deleting a stored
      recipe is for its author alone. */
  lemma RecipePermissionSummary(m: Method, who: Requester, author: Option<UserId>)
    ensures IsSafe(m) ==> RecipePermissionAllows(m, who, author)
    ensures m == POST && author.None? ==> (RecipePermissionAllows(m, who, author) <==> who.Authenticated?)
    ensures !IsSafe(m) && author.Some? ==>
      (RecipePermissionAllows(m, who, author) <==> who.Authenticated? && who.id == author.value)
  {
  }

  /** The router's actions for the user view sets (view.action). */
  const OpenUserActions: set<string> := {"create", "list", "retrieve"}

  /** UserPermission.has_permission. */
  function UserHasPermission(action: string, who: Requester): (ok: bool)
    ensures ok <==> action in OpenUserActions || who.Authenticated?
  {
    if action in OpenUserActions then true else who.IsAuthenticated()
  }

  /** UserViewSet.get_permissions, the same in backend/users/views.py and
      backend/api/views.py. */
  function UserViewGuard(action: string): (g: Guard)
    ensures g == AllowAny <==> action in OpenUserActions
    ensures g != IsAuthorOrReadOnly
  {
    if action in OpenUserActions then AllowAny else IsAuthenticated
  }

  /** The user view sets' guards decide exactly as UserPermission does. */
  lemma UserGuardsAgree(action: string, who: Requester)
    ensures Passes(UserViewGuard(action), who) == UserHasPermission(action, who)
  {
  }

  /** RecipeViewSet.get_permissions of backend/recipes/views.py: no check for
      the safe methods, a login for every other one. */
  function RecipesViewGuard(m: Method): (g: Guard)
    ensures g == AllowAny <==> IsSafe(m)
    ensures g != IsAuthorOrReadOnly
  {
    if IsSafe(m) then AllowAny else IsAuthenticated
  }

  /** RecipeViewSet.get_permissions of backend/api/views.py. */
  function ApiRecipeGuard(m: Method): (g: Guard)
    ensures IsSafe(m) <==> g == AllowAny
    ensures g == IsAuthenticated <==> m == POST
    ensures g == IsAuthorOrReadOnly <==> !IsSafe(m) && m != POST
  {
    if IsSafe(m) then AllowAny
    else if m == POST then IsAuthenticated
    else IsAuthorOrReadOnly
  }

  /** The two recipe view sets agree on the safe methods and on POST. */
  lemma RecipeGuardsAgree(m: Method)
    ensures IsSafe(m) || m == POST ==> ApiRecipeGuard(m) == RecipesViewGuard(m)
  {
  }

  datatype SerializerKind = ReadSerializer | WriteSerializer

  /** get_serializer_class of backend/recipes/views.py: chosen by action. */
  function RecipesSerializer(action: string): (k: SerializerKind)
    ensures k == ReadSerializer <==> action == "list" || action == "retrieve"
  {
    if action in ["list", "retrieve"] then ReadSerializer else WriteSerializer
  }

  /** get_serializer_class of backend/api/views.py: chosen by method. */
  function ApiSerializer(m: Method): (k: SerializerKind)
    ensures k == ReadSerializer <==> IsSafe(m)
  {
    if IsSafe(m) then ReadSerializer else WriteSerializer
  }

  /** The action the router gives a standard ModelViewSet request. */
  function StandardAction(m: Method, detail: bool): string
    requires m != OPTIONS
  {
    match m
    case GET => if detail then "retrieve" else "list"
    case HEAD => if detail then "retrieve" else "list"
    case POST => "create"
    case PUT => "update"
    case PATCH => "partial_update"
    case DELETE => "destroy"
  }

  /** On the standard routes the two choices coincide. */
  lemma SerializerChoicesAgree(m: Method, detail: bool)
    requires m != OPTIONS
    ensures RecipesSerializer(StandardAction(m, detail)) == ApiSerializer(m)
  {
  }
}
