/** The Follow model: a directed edge "follower follows followee" between two users. */
module Follows {
  import opened Wrappers
  import opened Ordering

  type UserId = nat
  type Time = int

  datatype Follow = Follow(follower: UserId, followee: UserId, createdAt: Time)

  datatype FollowError = AlreadyTaken | CannotFollowSelf

  predicate SamePair(a: Follow, b: Follow)
  {
    a.follower == b.follower && a.followee == b.followee
  }

  /**
   * The errors `valid?` reports for a new edge f given the stored edges:
   * `uniqueness: { scope: :followee_id }` on the ordered pair, and
   * `cannot_follow_self`.
   */
  function ValidationErrors(rows: seq<Follow>, f: Follow): (errs: set<FollowError>)
    ensures AlreadyTaken in errs <==> exists e :: e in rows && SamePair(e, f)
    ensures CannotFollowSelf in errs <==> f.follower == f.followee
  {
    (if exists e :: e in rows && SamePair(e, f) then {AlreadyTaken} else {}) +
    (if f.follower == f.followee then {CannotFollowSelf} else {})
  }

  /** Edge sets the validations let through: no self-loops, at most one edge per ordered pair. */
  ghost predicate WellFormed(rows: seq<Follow>)
  {
    (forall e :: e in rows ==> e.follower != e.followee) &&
    SortedBy(rows, DistinctPair)
  }

  /** Any two stored edges differ in their ordered pair. */
  predicate DistinctPair(a: Follow, b: Follow)
  {
    !SamePair(a, b)
  }

  /** Storing an edge that validates keeps the edge set well formed. */
  lemma ValidEdgeKeepsWellFormed(rows: seq<Follow>, f: Follow)
    requires WellFormed(rows) && ValidationErrors(rows, f) == {}
    ensures WellFormed(rows + [f])
  {
  }

  /**
   * Uniqueness is on the ordered pair only: one followee may have many
   * followers, one follower many followees, and (a, b) and (b, a) may
   * both exist.
   */
  lemma OnlyTheOrderedPairIsUnique(a: UserId, b: UserId, c: UserId, t: Time, t': Time)
    requires a != b && a != c && b != c
    ensures ValidationErrors([Follow(a, b, t)], Follow(c, b, t')) == {}
    ensures ValidationErrors([Follow(a, b, t)], Follow(a, c, t')) == {}
    ensures ValidationErrors([Follow(a, b, t)], Follow(b, a, t')) == {}
    ensures ValidationErrors([Follow(a, b, t)], Follow(a, b, t')) == {AlreadyTaken}
  {
    var rows := [Follow(a, b, t)];
    NoErrorsWhenNoneApply(rows, Follow(c, b, t'));
    NoErrorsWhenNoneApply(rows, Follow(a, c, t'));
    NoErrorsWhenNoneApply(rows, Follow(b, a, t'));
    var errs := ValidationErrors(rows, Follow(a, b, t'));
    assert rows[0] in rows;
    forall e | e in errs ensures e == AlreadyTaken {
      match e
      case AlreadyTaken =>
      case CannotFollowSelf =>
    }
  }

  lemma NoErrorsWhenNoneApply(rows: seq<Follow>, f: Follow)
    requires f.follower != f.followee
    requires forall e :: e in rows ==> !SamePair(e, f)
    ensures ValidationErrors(rows, f) == {}
  {
  }

  // ---------------------------------------------------------------------
  // Scopes

  /** `for_follower(user)`: the edges leaving user. */
  function ForFollower(rows: seq<Follow>, user: UserId): (r: seq<Follow>)
    ensures forall x :: multiset(r)[x] == if x.follower == user then multiset(rows)[x] else 0
    ensures forall x :: x in r <==> x in rows && x.follower == user
  {
    Filter(rows, (x: Follow) => x.follower == user)
  }

  /** `for_followee(user)`: the edges entering user. */
  function ForFollowee(rows: seq<Follow>, user: UserId): (r: seq<Follow>)
    ensures forall x :: multiset(r)[x] == if x.followee == user then multiset(rows)[x] else 0
    ensures forall x :: x in r <==> x in rows && x.followee == user
  {
    Filter(rows, (x: Follow) => x.followee == user)
  }

  predicate NewerOrSame(a: Follow, b: Follow)
  {
    a.createdAt >= b.createdAt
  }

  /** `recent`: the same edges, newest created_at first. */
  function Recent(rows: seq<Follow>): (r: seq<Follow>)
    ensures multiset(r) == multiset(rows)
    ensures forall i, j :: 0 <= i < j < |r| ==> r[i].createdAt >= r[j].createdAt
  {
    SortByPermutes(rows, NewerOrSame);
    SortBySorted(rows, NewerOrSame);
    SortBy(rows, NewerOrSame)
  }

  /** The edges that do not have the ordered pair (a, b). */
  function WithoutPair(rows: seq<Follow>, a: UserId, b: UserId): (r: seq<Follow>)
    ensures forall x :: multiset(r)[x] == if x.follower == a && x.followee == b then 0 else multiset(rows)[x]
    ensures forall x :: x in r <==> x in rows && !(x.follower == a && x.followee == b)
  {
    Filter(rows, (x: Follow) => !(x.follower == a && x.followee == b))
  }

  /** The edges with user at neither end. */
  function NotTouching(rows: seq<Follow>, user: UserId): (r: seq<Follow>)
    ensures forall x :: multiset(r)[x] == if x.follower == user || x.followee == user then 0 else multiset(rows)[x]
    ensures forall x :: x in r <==> x in rows && x.follower != user && x.followee != user
  {
    Filter(rows, (x: Follow) => x.follower != user && x.followee != user)
  }

  /** Removing edges keeps the edge set well formed. */
  lemma FilterKeepsWellFormed(rows: seq<Follow>, p: Follow -> bool)
    requires WellFormed(rows)
    ensures WellFormed(Filter(rows, p))
  {
    FilterKeepsSorted(rows, p, DistinctPair);
  }

  /** The follows table. */
  class FollowTable {
    var rows: seq<Follow>

    ghost predicate Valid()
      reads this
    {
      WellFormed(rows)
    }

    constructor ()
      ensures Valid() && rows == []
    {
      rows := [];
    }

    /** `Follow.create`: validate, then store. */
    method Create(f: Follow) returns (res: Result<Follow, set<FollowError>>)
      requires Valid()
      modifies this
      ensures Valid()
      ensures res.Ok? <==> ValidationErrors(old(rows), f) == {}
      ensures res.Ok? ==> res.value == f && rows == old(rows) + [f]
      ensures res.Err? ==> res.error == ValidationErrors(old(rows), f) && rows == old(rows)
    {
      var errs := ValidationErrors(rows, f);
      if errs == {} {
        ValidEdgeKeepsWellFormed(rows, f);
        rows := rows + [f];
        res := Ok(f);
      } else {
        res := Err(errs);
      }
    }

    /** Deletes the edge (a, b), if there is one; returns what was deleted. */
    method DeletePair(a: UserId, b: UserId) returns (deleted: seq<Follow>)
      requires Valid()
      modifies this
      ensures Valid()
      ensures rows == WithoutPair(old(rows), a, b)
      ensures deleted == Filter(old(rows), (x: Follow) => x.follower == a && x.followee == b)
    {
      deleted := Filter(rows, (x: Follow) => x.follower == a && x.followee == b);
      FilterKeepsWellFormed(rows, (x: Follow) => !(x.follower == a && x.followee == b));
      rows := WithoutPair(rows, a, b);
    }

    /** The `dependent: :destroy` cascade of both edge associations of one user. */
    method DestroyTouching(user: UserId)
      requires Valid()
      modifies this
      ensures Valid()
      ensures rows == NotTouching(old(rows), user)
    {
      FilterKeepsWellFormed(rows, (x: Follow) => x.follower != user && x.followee != user);
      rows := NotTouching(rows, user);
    }
  }
}
