/**
 * The User model: name validation, the follow graph operations
 * `follow`, `unfollow`, `following?`, `follower_count`, `following_count`,
 * and the `dependent: :destroy` cascades.
 */
module Users {
  import opened Wrappers
  import opened Ordering
  import Follows
  import SleepRecords

  type UserId = nat
  type Time = int
  type Edge = Follows.Follow

  // ---------------------------------------------------------------------
  // validates :name, presence: true, length: { minimum: 2, maximum: 100 }

  datatype NameError = Blank | TooShort | TooLong

  /** The ASCII characters String#blank? treats as white space. */
  predicate IsSpace(c: char)
  {
    c == ' ' || c == '\t' || c == '\n' || c == '\r' || c == '\U{0B}' || c == '\U{0C}'
  }

  predicate IsBlank(s: string)
  {
    forall i :: 0 <= i < |s| ==> IsSpace(s[i])
  }

  /** A missing name counts as length 0 for the length rule, as `nil.to_s` does. */
  function NameErrors(name: Option<string>): (errs: set<NameError>)
    ensures errs == {} <==> name.Some? && !IsBlank(name.value) && 2 <= |name.value| <= 100
    ensures Blank in errs <==> name.None? || IsBlank(name.value)
    ensures TooShort in errs <==> name.None? || |name.value| < 2
    ensures TooLong in errs <==> name.Some? && |name.value| > 100
  {
    var len := if name.None? then 0 else |name.value|;
    (if name.None? || IsBlank(name.value) then {Blank} else {}) +
    (if len < 2 then {TooShort} else {}) +
    (if len > 100 then {TooLong} else {})
  }

  // ---------------------------------------------------------------------
  // The follow graph, read through `following` and `followers`

  /** `following`: the users user follows. */
  function Followees(rows: seq<Edge>, user: UserId): set<UserId>
  {
    set e | e in rows && e.follower == user :: e.followee
  }

  /** `followers`: the users who follow user. */
  function Followers(rows: seq<Edge>, user: UserId): set<UserId>
  {
    set e | e in rows && e.followee == user :: e.follower
  }

  /** `following?(other)` over an edge list: an edge from user to other is stored. */
  function IsFollowingIn(rows: seq<Edge>, user: UserId, other: UserId): (b: bool)
    ensures b <==> other in Followees(rows, user)
    ensures b <==> user in Followers(rows, other)
  {
    exists e :: e in rows && e.follower == user && e.followee == other
  }

  /** The edge set after `user.follow(other)`: appended unless already there or other == user. */
  function FollowEdges(rows: seq<Edge>, user: UserId, other: UserId, now: Time): (r: seq<Edge>)
    ensures forall e :: e in rows ==> e in r
    ensures forall e :: e in r && e !in rows ==> e == Follows.Follow(user, other, now)
    ensures |r| == |rows| + (if IsFollowingIn(rows, user, other) || user == other then 0 else 1)
  {
    if IsFollowingIn(rows, user, other) || user == other then rows
    else rows + [Follows.Follow(user, other, now)]
  }

  /** The edge set after `user.unfollow(other)`. */
  function UnfollowEdges(rows: seq<Edge>, user: UserId, other: UserId): (r: seq<Edge>)
    ensures forall e :: e in r <==> e in rows && !(e.follower == user && e.followee == other)
    ensures |r| <= |rows|
  {
    Follows.WithoutPair(rows, user, other)
  }

  /**
   * `following.delete(other)` as the association behaves: the pair's edges
   * go, and the call returns the users it was given, whether or not an edge
   * existed.
   */
  function UnfollowAsWritten(rows: seq<Edge>, user: UserId, other: UserId): (seq<Edge>, seq<UserId>)
  {
    (UnfollowEdges(rows, user, other), [other])
  }

  /**
   * So `unfollow` of a user who is not followed changes nothing and still
   * returns a non-empty, truthy collection: the caller cannot tell it apart
   * from a real unfollow.
   */
  lemma UnfollowOfStrangerReportsSuccess(rows: seq<Edge>, user: UserId, other: UserId)
    requires !IsFollowingIn(rows, user, other)
    ensures UnfollowAsWritten(rows, user, other).0 == rows
    ensures UnfollowAsWritten(rows, user, other).1 != []
  {
    UnfollowRemovesFollowee(rows, user, other);
  }

  lemma FollowKeepsWellFormed(rows: seq<Edge>, user: UserId, other: UserId, now: Time)
    requires Follows.WellFormed(rows)
    ensures Follows.WellFormed(FollowEdges(rows, user, other, now))
  {
  }

  /** After `follow`, the followees are the old ones plus other (unless other is user). */
  lemma FollowAddsFollowee(rows: seq<Edge>, user: UserId, other: UserId, now: Time)
    ensures Followees(FollowEdges(rows, user, other, now), user) ==
      if user == other then Followees(rows, user) else Followees(rows, user) + {other}
    ensures user != other ==> IsFollowingIn(FollowEdges(rows, user, other, now), user, other)
    ensures forall u :: u != user ==> Followees(FollowEdges(rows, user, other, now), u) == Followees(rows, u)
  {
  }

  /** `follow` is idempotent: a second identical call changes nothing. */
  lemma FollowIdempotent(rows: seq<Edge>, user: UserId, other: UserId, now: Time, later: Time)
    ensures FollowEdges(FollowEdges(rows, user, other, now), user, other, later) == FollowEdges(rows, user, other, now)
  {
  }

  /** After `unfollow`, other is no longer followed; nothing else changes; an absent edge leaves everything as it was. */
  lemma UnfollowRemovesFollowee(rows: seq<Edge>, user: UserId, other: UserId)
    ensures Followees(UnfollowEdges(rows, user, other), user) == Followees(rows, user) - {other}
    ensures !IsFollowingIn(UnfollowEdges(rows, user, other), user, other)
    ensures forall u :: u != user ==> Followees(UnfollowEdges(rows, user, other), u) == Followees(rows, u)
    ensures !IsFollowingIn(rows, user, other) ==> UnfollowEdges(rows, user, other) == rows
  {
    var after := UnfollowEdges(rows, user, other);
    forall u ensures Followees(after, u) == Followees(rows, u) - (if u == user then {other} else {}) {
      forall v | v in Followees(rows, u) - (if u == user then {other} else {}) ensures v in Followees(after, u) {
        var e :| e in rows && e.follower == u && e.followee == v;
        assert e in after;
      }
    }
    if !IsFollowingIn(rows, user, other) {
      forall i | 0 <= i < |rows| ensures !(rows[i].follower == user && rows[i].followee == other) {
        assert rows[i] in rows;
      }
      FilterKeepsAll(rows, (x: Edge) => !(x.follower == user && x.followee == other));
    }
  }

  lemma WellFormedTail(rows: seq<Edge>)
    requires rows != [] && Follows.WellFormed(rows)
    ensures Follows.WellFormed(rows[1..])
  {
  }

  /** The head edge of a well-formed edge set has a pair no later edge repeats. */
  lemma HeadPairUnique(rows: seq<Edge>)
    requires rows != [] && Follows.WellFormed(rows)
    ensures forall e :: e in rows[1..] ==> !Follows.SamePair(e, rows[0])
  {
  }

  lemma FolloweesCons(rows: seq<Edge>, user: UserId)
    requires rows != []
    ensures Followees(rows, user) ==
      (if rows[0].follower == user then {rows[0].followee} else {}) + Followees(rows[1..], user)
  {
  }

  lemma FollowersCons(rows: seq<Edge>, user: UserId)
    requires rows != []
    ensures Followers(rows, user) ==
      (if rows[0].followee == user then {rows[0].follower} else {}) + Followers(rows[1..], user)
  {
  }

  /** In a well-formed edge set, the number of edges out of user is the number of users user follows. */
  lemma {:induction false} FollowingCountIsFollowees(rows: seq<Edge>, user: UserId)
    requires Follows.WellFormed(rows)
    ensures |Follows.ForFollower(rows, user)| == |Followees(rows, user)|
  {
    if rows != [] {
      var e := rows[0];
      WellFormedTail(rows);
      FollowingCountIsFollowees(rows[1..], user);
      FolloweesCons(rows, user);
      if e.follower == user {
        HeadPairUnique(rows);
        assert e.followee !in Followees(rows[1..], user);
      }
    }
  }

  /** In a well-formed edge set, the number of edges into user is the number of users following user. */
  lemma {:induction false} FollowerCountIsFollowers(rows: seq<Edge>, user: UserId)
    requires Follows.WellFormed(rows)
    ensures |Follows.ForFollowee(rows, user)| == |Followers(rows, user)|
  {
    if rows != [] {
      var e := rows[0];
      WellFormedTail(rows);
      FollowerCountIsFollowers(rows[1..], user);
      FollowersCons(rows, user);
      if e.followee == user {
        HeadPairUnique(rows);
        assert e.follower !in Followers(rows[1..], user);
      }
    }
  }

  /** `follow` of a new followee raises following_count by one; a self or repeated follow leaves it. */
  lemma FollowChangesCount(rows: seq<Edge>, user: UserId, other: UserId, now: Time)
    requires Follows.WellFormed(rows)
    ensures |Follows.ForFollower(FollowEdges(rows, user, other, now), user)| ==
      if IsFollowingIn(rows, user, other) || user == other then |Follows.ForFollower(rows, user)|
      else |Follows.ForFollower(rows, user)| + 1
  {
    FollowKeepsWellFormed(rows, user, other, now);
    FollowAddsFollowee(rows, user, other, now);
    FollowingCountIsFollowees(rows, user);
    FollowingCountIsFollowees(FollowEdges(rows, user, other, now), user);
  }

  /** `unfollow` of a followee lowers following_count by one; of anyone else it leaves it. */
  lemma UnfollowChangesCount(rows: seq<Edge>, user: UserId, other: UserId)
    requires Follows.WellFormed(rows)
    ensures |Follows.ForFollower(UnfollowEdges(rows, user, other), user)| ==
      if IsFollowingIn(rows, user, other) then |Follows.ForFollower(rows, user)| - 1
      else |Follows.ForFollower(rows, user)|
  {
    Follows.FilterKeepsWellFormed(rows, (x: Edge) => !(x.follower == user && x.followee == other));
    UnfollowRemovesFollowee(rows, user, other);
    FollowingCountIsFollowees(rows, user);
    FollowingCountIsFollowees(UnfollowEdges(rows, user, other), user);
  }

  // ---------------------------------------------------------------------
  // The users table and the operations on the stored graph

  class UserTable {
    var names: map<UserId, string>
    var nextId: UserId

    ghost predicate Valid()
      reads this
    {
      forall u :: u in names ==> u < nextId && NameErrors(Some(names[u])) == {}
    }

    constructor ()
      ensures Valid() && names == map[]
    {
      names := map[];
      nextId := 1;
    }

    /** `User.create(name:)`: stores a user under a fresh id when the name is valid. */
    method Create(name: Option<string>) returns (res: Result<UserId, set<NameError>>)
      requires Valid()
      modifies this
      ensures Valid()
      ensures res.Ok? <==> NameErrors(name) == {}
      ensures res.Ok? ==> res.value == old(nextId) && res.value !in old(names) && names == old(names)[res.value := name.value]
      ensures res.Err? ==> res.error == NameErrors(name) && names == old(names) && nextId == old(nextId)
    {
      var errs := NameErrors(name);
      if errs == {} {
        res := Ok(nextId);
        names := names[nextId := name.value];
        nextId := nextId + 1;
      } else {
        res := Err(errs);
      }
    }
  }

  /** `user.follow(other)`: returns whether an edge was added. */
  method Follow(g: Follows.FollowTable, user: UserId, other: UserId, now: Time) returns (followed: bool)
    requires g.Valid()
    modifies g
    ensures g.Valid()
    ensures g.rows == FollowEdges(old(g.rows), user, other, now)
    ensures followed <==> !IsFollowingIn(old(g.rows), user, other) && user != other
    ensures user != other ==> IsFollowing(g, user, other)
  {
    FollowAddsFollowee(g.rows, user, other, now);
    if !(IsFollowingIn(g.rows, user, other) || user == other) {
      Follows.NoErrorsWhenNoneApply(g.rows, Follows.Follow(user, other, now));
      var res := g.Create(Follows.Follow(user, other, now));
      followed := true;
    } else {
      followed := false;
    }
  }

  /** `user.unfollow(other)`: returns whether an edge was removed. */
  method Unfollow(g: Follows.FollowTable, user: UserId, other: UserId) returns (removed: bool)
    requires g.Valid()
    modifies g
    ensures g.Valid()
    ensures g.rows == UnfollowEdges(old(g.rows), user, other)
    ensures removed <==> IsFollowingIn(old(g.rows), user, other)
    ensures !IsFollowing(g, user, other)
  {
    UnfollowRemovesFollowee(g.rows, user, other);
    PairEdgesIffFollowing(g.rows, user, other);
    var deleted := g.DeletePair(user, other);
    removed := deleted != [];
  }

  /** The edges `delete` finds for the pair exist exactly when user follows other. */
  lemma PairEdgesIffFollowing(rows: seq<Edge>, user: UserId, other: UserId)
    ensures Filter(rows, (x: Follows.Follow) => x.follower == user && x.followee == other) != [] <==> IsFollowingIn(rows, user, other)
  {
    if IsFollowingIn(rows, user, other) {
      var e :| e in rows && e.follower == user && e.followee == other;
      assert e in Filter(rows, (x: Follows.Follow) => x.follower == user && x.followee == other);
    }
  }

  /** `user.following?(other)` over the edge table. */
  function IsFollowing(g: Follows.FollowTable, user: UserId, other: UserId): (b: bool)
    reads g
    ensures b <==> other in Followees(g.rows, user)
  {
    IsFollowingIn(g.rows, user, other)
  }

  /** `user.following_count`: the number of edges out of user, which is the number of users followed. */
  function FollowingCount(g: Follows.FollowTable, user: UserId): (n: nat)
    reads g
    requires g.Valid()
    ensures n == |Followees(g.rows, user)|
  {
    FollowingCountIsFollowees(g.rows, user);
    |Follows.ForFollower(g.rows, user)|
  }

  /** `user.follower_count`: the number of edges into user, which is the number of followers. */
  function FollowerCount(g: Follows.FollowTable, user: UserId): (n: nat)
    reads g
    requires g.Valid()
    ensures n == |Followers(g.rows, user)|
  {
    FollowerCountIsFollowers(g.rows, user);
    |Follows.ForFollowee(g.rows, user)|
  }

  /**
   * `user.destroy`: the user goes, with all of its sleep records and every
   * edge it is at either end of; nothing else changes.
   */
  method Destroy(users: UserTable, records: SleepRecords.SleepRecordTable, g: Follows.FollowTable, user: UserId)
    requires users.Valid() && records.Valid() && g.Valid()
    modifies users, records, g
    ensures users.Valid() && records.Valid() && g.Valid()
    ensures users.names == old(users.names) - {user} && users.nextId == old(users.nextId)
    ensures records.rows == SleepRecords.WithoutUser(old(records.rows), user) && records.nextId == old(records.nextId)
    ensures g.rows == Follows.NotTouching(old(g.rows), user)
  {
    records.DestroyForUser(user);
    g.DestroyTouching(user);
    users.names := users.names - {user};
  }
}
