/** Shared vocabulary of the foodgram backend model: identifiers, the HTTP
    methods and status codes the views use, the requester, and the small
    sequence facts the validators rely on. */
module Common {

  /** Primary keys of the relational schema (auto-increment, never negative). */
  type UserId = nat
  type RecipeId = nat
  type IngredientId = nat
  type TagId = nat

  datatype Option<+T> = None | Some(value: T) {
    function GetOr(default: T): T {
      match this
      case Some(v) => v
      case None => default
    }
  }

  datatype Result<+T, +E> = Ok(value: T) | Err(error: E)

  /** The HTTP methods a request can carry. */
  datatype Method = GET | HEAD | OPTIONS | POST | PUT | PATCH | DELETE

  /** The framework's SAFE_METHODS: GET, HEAD and OPTIONS. */
  predicate IsSafe(m: Method) {
    m == GET || m == HEAD || m == OPTIONS
  }

  /** The response codes the modelled views return. InternalError500 is
      the answer to an exception the view does not catch: the short-code
      draws running out, a lookup with the anonymous user, a key missing
      from a nested item, or a uniqueness constraint the database enforces. */
  datatype Status =
    | Ok200 | Created201 | NoContent204
    | BadRequest400 | Unauthorized401 | Forbidden403 | NotFound404
    | InternalError500

  /** request.user: the anonymous user or an authenticated one. */
  datatype Requester = Anonymous | Authenticated(id: UserId) {
    predicate IsAuthenticated() { Authenticated? }
  }

  /** The set of elements of a list, Python's set(xs). */
  function Elems<T>(s: seq<T>): set<T> {
    set x | x in s
  }

  /** No element occurs twice. */
  predicate Distinct<T(==)>(s: seq<T>) {
    forall i, j :: 0 <= i < j < |s| ==> s[i] != s[j]
  }

  /** The validators' duplicate test, len(xs) != len(set(xs)). */
  predicate HasRepeats<T(==)>(s: seq<T>) {
    |s| != |Elems(s)|
  }

  lemma {:induction false} ElemsCard<T>(s: seq<T>)
    ensures |Elems(s)| <= |s|
    ensures |Elems(s)| == |s| <==> Distinct(s)
  {
    if s == [] {
      assert Elems(s) == {};
    } else {
      var t := s[1..];
      ElemsCard(t);
      assert Elems(s) == {s[0]} + Elems(t);
      if s[0] in t {
        assert Elems(s) == Elems(t);
        var k :| 0 <= k < |t| && t[k] == s[0];
        assert s[0] == s[k + 1];
        assert !Distinct(s);
      } else {
        assert |Elems(s)| == 1 + |Elems(t)|;
        if Distinct(t) {
          forall i, j | 0 <= i < j < |s| ensures s[i] != s[j] {
            if i == 0 {
              assert s[j] == t[j - 1];
            } else {
              assert s[i] == t[i - 1] && s[j] == t[j - 1];
            }
          }
        } else {
          var i, j :| 0 <= i < j < |t| && t[i] == t[j];
          assert s[i + 1] == s[j + 1];
        }
      }
    }
  }

  /** The length-versus-set test of the source detects exactly the lists in
      which some element occurs twice. */
  lemma RepeatsIffNotDistinct<T>(s: seq<T>)
    ensures HasRepeats(s) <==> !Distinct(s)
  {
    ElemsCard(s);
  }

  /** The elements of s that satisfy p, in their original order (a query
      narrowed by a filter). */
  function Keep<T(==)>(s: seq<T>, p: T -> bool): (r: seq<T>)
    ensures |r| <= |s|
    ensures forall i :: 0 <= i < |r| ==> r[i] in s && p(r[i])
    ensures forall i :: 0 <= i < |s| && p(s[i]) ==> s[i] in r
    ensures Distinct(s) ==> Distinct(r)
  {
    if s == [] then []
    else
      var rest := Keep(s[1..], p);
      if p(s[0]) then
        assert s[0] in s;
        [s[0]] + rest
      else rest
  }

  /** Two filters that agree on every element keep the same elements. */
  lemma {:induction false} KeepCongruent<T>(s: seq<T>, p: T -> bool, q: T -> bool)
    requires forall i :: 0 <= i < |s| ==> p(s[i]) == q(s[i])
    ensures Keep(s, p) == Keep(s, q)
  {
    if s != [] {
      assert forall i :: 0 <= i < |s[1..]| ==> s[1..][i] == s[i + 1];
      KeepCongruent(s[1..], p, q);
    }
  }

  /** Python's xs[:n] for n >= 0. */
  function Take<T(==)>(s: seq<T>, n: nat): (r: seq<T>)
    ensures |r| == if n <= |s| then n else |s|
    ensures r <= s
  {
    if n <= |s| then s[..n] else s
  }
}
