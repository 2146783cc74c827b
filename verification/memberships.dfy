/** The membership endpoints: adding and removing a favourite or a
    shopping-cart pair (backend/recipes/views.py _add_remove_relation, and
    backend/api/views.py _add_relation with FavoriteShoppingCartSerializer
    and _delete_relation), and following and unfollowing an author
    (backend/users/views.py subscribe, and backend/api/views.py subscribe
    with FollowCreateSerializer and unsubscribe).

    The actions declare IsAuthenticated, but who may call them is decided
    by each view set's get_permissions, which replaces that declaration.
    For these unsafe methods it still answers the anonymous user with 401,
    except the api favourite and cart DELETE: there the guard is the
    IsAuthorOrReadOnly label, and the 401 comes from _delete_relation
    itself. See Permissions for the guards. The handler then looks the
    recipe or author up, and answers 404 when it does not exist. A
    membership is a set of pairs, so a pair is either present or not, and
    the two uniqueness constraints hold by construction. */
module Memberships {
  import opened Common
  import opened Schema

  datatype Verb = Add | Remove

  /** The status of a response and the membership set after it. */
  datatype Reply<T(==)> = Reply(status: Status, pairs: set<(UserId, T)>)

  /** recipes/views.py _add_remove_relation over the favourites or the cart:
      a duplicate add and the removal of an absent pair are refused with
      400 and change nothing. */
  function Relation<T(==)>(pairs: set<(UserId, T)>, targets: set<T>, who: Requester, target: T, verb: Verb): (r: Reply<T>)
    ensures r.status in {Created201, NoContent204} <==>
      who.Authenticated? && target in targets && (verb == Add <==> (who.id, target) !in pairs)
    ensures r.status == Created201 ==> r.pairs == pairs + {(who.id, target)} && (who.id, target) !in pairs
    ensures r.status == NoContent204 ==> r.pairs == pairs - {(who.id, target)} && (who.id, target) in pairs
    ensures r.status !in {Created201, NoContent204} ==> r.pairs == pairs
    ensures r.status == Unauthorized401 <==> who.Anonymous?
    ensures r.status == NotFound404 <==> who.Authenticated? && target !in targets
  {
    if who.Anonymous? then Reply(Unauthorized401, pairs)
    else if target !in targets then Reply(NotFound404, pairs)
    else
      var pair := (who.id, target);
      match verb
      case Add =>
        if pair in pairs then Reply(BadRequest400, pairs) else Reply(Created201, pairs + {pair})
      case Remove =>
        if pair !in pairs then Reply(BadRequest400, pairs) else Reply(NoContent204, pairs - {pair})
  }

  /** FavoriteShoppingCartSerializer.validate: the filter(...).exists()
      query for the pair. */
  predicate PairProblem<T(==)>(pairs: set<(UserId, T)>, user: UserId, target: T) {
    (user, target) in pairs
  }

  /** api/views.py _add_relation: the serializer is validated and saved. */
  function ApiAddRelation<T(==)>(pairs: set<(UserId, T)>, targets: set<T>, who: Requester, target: T): (r: Reply<T>)
    ensures r.status == Created201 <==> who.Authenticated? && target in targets && (who.id, target) !in pairs
    ensures r.status == Created201 ==> r.pairs == pairs + {(who.id, target)}
    ensures r.status != Created201 ==> r.pairs == pairs
  {
    if who.Anonymous? then Reply(Unauthorized401, pairs)
    else if target !in targets then Reply(NotFound404, pairs)
    else if PairProblem(pairs, who.id, target) then Reply(BadRequest400, pairs)
    else Reply(Created201, pairs + {(who.id, target)})
  }

  /** api/views.py _delete_relation: 401 for the anonymous user, checked in
      the handler itself because get_permissions gives a DELETE only the IsAuthorOrReadOnly
      label; 404 for an unknown recipe; otherwise the count of deleted rows
      decides between 400 and 204. */
  function ApiDeleteRelation<T(==)>(pairs: set<(UserId, T)>, targets: set<T>, who: Requester, target: T): (r: Reply<T>)
    ensures r.pairs <= pairs
    ensures r.status == NoContent204 ==> who.Authenticated? && pairs - r.pairs == {(who.id, target)}
    ensures r.status != NoContent204 ==> r.pairs == pairs
  {
    if !who.IsAuthenticated() then Reply(Unauthorized401, pairs)
    else if target !in targets then Reply(NotFound404, pairs)
    else
      var deleted := if (who.id, target) in pairs then 1 else 0;
      if deleted == 0 then Reply(BadRequest400, pairs) else Reply(NoContent204, pairs - {(who.id, target)})
  }

  /** The serializer's duplicate test: a logged-in user adding a stored
      recipe that is already in their favourites or cart gets 400, and
      nothing changes. */
  lemma ApiAddRefusesDuplicate<T>(pairs: set<(UserId, T)>, targets: set<T>, u: UserId, target: T)
    requires target in targets && (u, target) in pairs
    ensures ApiAddRelation(pairs, targets, Authenticated(u), target) == Reply(BadRequest400, pairs)
  {
  }

  /** The two versions of the favourite and cart endpoints answer every
      request alike. */
  lemma RelationVersionsAgree<T>(pairs: set<(UserId, T)>, targets: set<T>, who: Requester, target: T)
    ensures ApiAddRelation(pairs, targets, who, target) == Relation(pairs, targets, who, target, Add)
    ensures ApiDeleteRelation(pairs, targets, who, target) == Relation(pairs, targets, who, target, Remove)
  {
  }

  /** Adding an absent pair and removing it again restores the set; a second
      add of the same pair is refused and changes nothing. */
  lemma AddThenRemove<T>(pairs: set<(UserId, T)>, targets: set<T>, u: UserId, target: T)
    requires target in targets && (u, target) !in pairs
    ensures var added := Relation(pairs, targets, Authenticated(u), target, Add);
      && added.status == Created201
      && Relation(added.pairs, targets, Authenticated(u), target, Add) == Reply(BadRequest400, added.pairs)
      && Relation(added.pairs, targets, Authenticated(u), target, Remove) == Reply(NoContent204, pairs)
  {
    var added := pairs + {(u, target)};
    assert added - {(u, target)} == pairs;
  }

  /** The pairs a reply leaves behind all name existing users and targets
      when the pairs before did. */
  lemma RelationKeepsKeys<T>(pairs: set<(UserId, T)>, users: set<UserId>, targets: set<T>, who: Requester, target: T, verb: Verb)
    requires forall p :: p in pairs ==> p.0 in users && p.1 in targets
    requires who.Authenticated? ==> who.id in users
    ensures forall p :: p in Relation(pairs, targets, who, target, verb).pairs ==> p.0 in users && p.1 in targets
  {
  }

  /** Applying a favourite or cart reply to the store keeps it well formed. */
  lemma RelationKeepsWellFormed(db: Db, b: Bounds, who: Requester, r: RecipeId, verb: Verb)
    requires WellFormed(db, b)
    requires who.Authenticated? ==> who.id in db.users
    ensures WellFormed(db.(favorites := Relation(db.favorites, db.recipes.Keys, who, r, verb).pairs), b)
    ensures WellFormed(db.(carts := Relation(db.carts, db.recipes.Keys, who, r, verb).pairs), b)
  {
    RelationKeepsKeys(db.favorites, db.users.Keys, db.recipes.Keys, who, r, verb);
    RelationKeepsKeys(db.carts, db.users.Keys, db.recipes.Keys, who, r, verb);
    var d1 := db.(favorites := Relation(db.favorites, db.recipes.Keys, who, r, verb).pairs);
    var d2 := db.(carts := Relation(db.carts, db.recipes.Keys, who, r, verb).pairs);
    assert ForeignKeys(d1);
    assert ForeignKeys(d2);
  }

  datatype FollowProblem = SelfFollow | AlreadyFollowing

  /** FollowCreateSerializer.validate, and the same two tests in
      users/views.py: following oneself is refused before the duplicate test
      is made. */
  function FollowCheck(follows: set<(UserId, UserId)>, user: UserId, author: UserId): (r: Option<FollowProblem>)
    ensures user == author ==> r == Some(SelfFollow)
    ensures r == Some(AlreadyFollowing) <==> user != author && (user, author) in follows
    ensures r.None? <==> user != author && (user, author) !in follows
  {
    if user == author then Some(SelfFollow)
    else if (user, author) in follows then Some(AlreadyFollowing)
    else None
  }

  /** users/views.py subscribe, POST and DELETE. */
  function Subscribe(follows: set<(UserId, UserId)>, users: set<UserId>, who: Requester, author: UserId, verb: Verb): (r: Reply<UserId>)
    ensures r.status == Created201 <==>
      who.Authenticated? && author in users && verb == Add && FollowCheck(follows, who.id, author).None?
    ensures r.status == Created201 ==> r.pairs == follows + {(who.id, author)}
    ensures r.status == NoContent204 <==>
      who.Authenticated? && author in users && verb == Remove && (who.id, author) in follows
    ensures r.status == NoContent204 ==> r.pairs == follows - {(who.id, author)}
    ensures r.status !in {Created201, NoContent204} ==> r.pairs == follows
    ensures who.Authenticated? && author in users && verb == Add && who.id == author ==> r.status == BadRequest400
  {
    if who.Anonymous? then Reply(Unauthorized401, follows)
    else if author !in users then Reply(NotFound404, follows)
    else match verb
      case Add =>
        if FollowCheck(follows, who.id, author).Some? then Reply(BadRequest400, follows)
        else Reply(Created201, follows + {(who.id, author)})
      case Remove =>
        if (who.id, author) !in follows then Reply(BadRequest400, follows)
        else Reply(NoContent204, follows - {(who.id, author)})
  }

  /** api/views.py subscribe: the author is looked up, then the follow
      serializer is validated and saved. */
  function ApiSubscribe(follows: set<(UserId, UserId)>, users: set<UserId>, who: Requester, author: UserId): (r: Reply<UserId>)
    ensures r.status == Created201 ==>
      who.Authenticated? && who.id != author && r.pairs == follows + {(who.id, author)}
    ensures r.status != Created201 ==> r.pairs == follows
  {
    if who.Anonymous? then Reply(Unauthorized401, follows)
    else if author !in users then Reply(NotFound404, follows)
    else if FollowCheck(follows, who.id, author).Some? then Reply(BadRequest400, follows)
    else Reply(Created201, follows + {(who.id, author)})
  }

  /** api/views.py unsubscribe: the count of deleted rows decides. */
  function ApiUnsubscribe(follows: set<(UserId, UserId)>, users: set<UserId>, who: Requester, author: UserId): (r: Reply<UserId>)
    ensures r.pairs <= follows
    ensures r.status == NoContent204 ==> who.Authenticated? && follows - r.pairs == {(who.id, author)}
    ensures r.status != NoContent204 ==> r.pairs == follows
  {
    if who.Anonymous? then Reply(Unauthorized401, follows)
    else if author !in users then Reply(NotFound404, follows)
    else
      var deleted := if (who.id, author) in follows then 1 else 0;
      if deleted == 0 then Reply(BadRequest400, follows) else Reply(NoContent204, follows - {(who.id, author)})
  }

  lemma FollowVersionsAgree(follows: set<(UserId, UserId)>, users: set<UserId>, who: Requester, author: UserId)
    ensures ApiSubscribe(follows, users, who, author) == Subscribe(follows, users, who, author, Add)
    ensures ApiUnsubscribe(follows, users, who, author) == Subscribe(follows, users, who, author, Remove)
  {
  }

  /** Under the prevent_self_follow constraint a self pair is never stored,
      so testing for a duplicate first would give the same answer for every
      request but the self-follow, which both orders refuse. */
  lemma FollowCheckOrder(follows: set<(UserId, UserId)>, user: UserId, author: UserId)
    requires forall p :: p in follows ==> p.0 != p.1
    ensures FollowCheck(follows, user, author).Some? <==> (user, author) in follows || user == author
    ensures (user, author) in follows ==> FollowCheck(follows, user, author) == Some(AlreadyFollowing)
  {
  }

  /** A follow reply applied to the store keeps it well formed: in
      particular no self-follow is ever stored. */
  lemma SubscribeKeepsWellFormed(db: Db, b: Bounds, who: Requester, author: UserId, verb: Verb)
    requires WellFormed(db, b)
    requires who.Authenticated? ==> who.id in db.users
    ensures WellFormed(db.(follows := Subscribe(db.follows, db.users.Keys, who, author, verb).pairs), b)
  {
  }

  /** Following and unfollowing restores the edge set. */
  lemma FollowThenUnfollow(follows: set<(UserId, UserId)>, users: set<UserId>, u: UserId, author: UserId)
    requires author in users && u != author && (u, author) !in follows
    ensures var f := Subscribe(follows, users, Authenticated(u), author, Add);
      && f.status == Created201
      && Subscribe(f.pairs, users, Authenticated(u), author, Remove) == Reply(NoContent204, follows)
  {
    assert follows + {(u, author)} - {(u, author)} == follows;
  }
}
