/**
 * Api::V1::SleepRecordsController: the clock-in/clock-out toggle (`create`),
 * a user's own history (`index`) and the friends feed
 * (`friends_sleep_records`). The current time is a parameter; responses
 * are return values.
 */
module SleepRecordsController {
  import opened Wrappers
  import opened Ordering
  import opened SleepRecords
  import Follows
  import Users

  /** What `create` reports: "Successfully clocked in", "Successfully clocked out", or the save! failure. */
  datatype ToggleOutcome =
    | ClockedIn(record: SleepRecord)
    | ClockedOut(record: SleepRecord)
    | ClockOutRejected(errors: set<RecordError>)

  /** `1.week.ago`, as a span of microseconds. */
  const OneWeek: int := 7 * 24 * 60 * 60 * TicksPerSecond

  // ---------------------------------------------------------------------
  // POST /api/v1/users/:user_id/sleep_records

  /** The record a clock-in creates: `create!(sleep_at: now)`. */
  function ClockInRecord(id: RecordId, user: UserId, now: Time): SleepRecord
  {
    SleepRecord(id, user, Some(now), None, None, now)
  }

  /**
   * The toggle on the table contents: the outcome and the new rows. With an
   * in-progress record of the user, that record gets wake_up_at = now and is
   * saved; otherwise a new record is appended.
   */
  function Toggle(rows: seq<SleepRecord>, nextId: RecordId, user: UserId, now: Time): (res: (ToggleOutcome, seq<SleepRecord>))
    ensures res.0.ClockedIn? ==>
      res.1 == rows + [res.0.record] && res.0.record.userId == user && InProgress(res.0.record)
    ensures !res.0.ClockedIn? ==> |res.1| == |rows|
    ensures res.0.ClockedOut? ==> res.0.record.userId == user && Completed(res.0.record)
  {
    match FirstInProgress(rows, user)
    case Some(i) =>
      (match Save(rows[i].(wakeUpAt := Some(now)))
       case Ok(s) => (ClockedOut(s), rows[i := s])
       case Err(errs) => (ClockOutRejected(errs), rows))
    case None =>
      (ClockedIn(ClockInRecord(nextId, user, now)), rows + [ClockInRecord(nextId, user, now)])
  }

  /** `create`: clock out of the open session, or clock in. */
  method ClockToggle(t: SleepRecordTable, user: UserId, now: Time) returns (outcome: ToggleOutcome)
    requires t.Valid()
    modifies t
    ensures t.Valid()
    ensures (outcome, t.rows) == Toggle(old(t.rows), old(t.nextId), user, now)
    ensures outcome.ClockedIn? ==> t.nextId > old(t.nextId)
    ensures !outcome.ClockedIn? ==> t.nextId == old(t.nextId)
  {
    var k := FirstInProgress(t.rows, user);
    if k.Some? {
      var res := t.Update(k.value, t.rows[k.value].(wakeUpAt := Some(now)));
      if res.Ok? {
        outcome := ClockedOut(res.value);
      } else {
        outcome := ClockOutRejected(res.error);
      }
    } else {
      ClockInRecordIsValid(t.nextId, user, now);
      var res := t.Create(user, Some(now), None, None, now);
      outcome := ClockedIn(res.value);
    }
  }

  /**
   * With an in-progress record, the toggle clocks out exactly when now is at
   * least a second after its sleep_at; the record keeps its id, gets
   * wake_up_at = now and a positive duration, and no record is added.
   * Without one, it clocks in: one new in-progress record with sleep_at = now.
   */
  lemma ToggleOutcomes(rows: seq<SleepRecord>, nextId: RecordId, user: UserId, now: Time)
    requires forall i :: 0 <= i < |rows| ==> Persisted(rows[i])
    ensures var (outcome, rows') := Toggle(rows, nextId, user, now);
      match FirstInProgress(rows, user)
      case Some(i) =>
        Persisted(rows[i]) &&
        (outcome.ClockedOut? <==> now >= rows[i].sleepAt.value + TicksPerSecond) &&
        (outcome.ClockedOut? ==>
          outcome.record == rows[i].(wakeUpAt := Some(now), durationInSeconds := Some(WholeSeconds(now - rows[i].sleepAt.value))) &&
          rows' == rows[i := outcome.record] &&
          outcome.record.durationInSeconds.value > 0) &&
        (outcome.ClockOutRejected? ==> rows' == rows && WakeUpNotAfterSleep in outcome.errors)
      case None =>
        outcome == ClockedIn(SleepRecord(nextId, user, Some(now), None, None, now)) &&
        rows' == rows + [outcome.record]
  {
  }

  /** The toggle as the source runs it, with the source's save! (see `SaveAsWritten`). */
  function ToggleAsWritten(rows: seq<SleepRecord>, nextId: RecordId, user: UserId, now: Time): (ToggleOutcome, seq<SleepRecord>)
  {
    match FirstInProgress(rows, user)
    case Some(i) =>
      (match SaveAsWritten(rows[i].(wakeUpAt := Some(now)))
       case Ok(s) => (ClockedOut(s), rows[i := s])
       case Err(errs) => (ClockOutRejected(errs), rows))
    case None =>
      (ClockedIn(ClockInRecord(nextId, user, now)), rows + [ClockInRecord(nextId, user, now)])
  }

  /**
   * The corrected toggle and the source's agree unless the corrected one
   * rejects a clock-out. When only the source's clocks out, it stores a
   * duration of 0. That happens exactly for a clock-out less than a second
   * after sleep_at.
   */
  lemma ToggleMatchesAsWritten(rows: seq<SleepRecord>, nextId: RecordId, user: UserId, now: Time)
    requires forall i :: 0 <= i < |rows| && InProgress(rows[i]) ==> Persisted(rows[i])
    ensures !Toggle(rows, nextId, user, now).0.ClockOutRejected? ==>
      ToggleAsWritten(rows, nextId, user, now) == Toggle(rows, nextId, user, now)
    ensures Toggle(rows, nextId, user, now).0.ClockOutRejected? && ToggleAsWritten(rows, nextId, user, now).0.ClockedOut? ==>
      ToggleAsWritten(rows, nextId, user, now).0.record.durationInSeconds == Some(0)
    ensures Toggle(rows, nextId, user, now).0.ClockOutRejected? ==>
      var i := FirstInProgress(rows, user).value;
      (ToggleAsWritten(rows, nextId, user, now).0.ClockedOut? <==> rows[i].sleepAt.Some? && rows[i].sleepAt.value < now)
  {
    match FirstInProgress(rows, user)
    case Some(i) =>
      SaveMatchesAsWritten(rows[i].(wakeUpAt := Some(now)));
    case None =>
  }

  /**
   * One microsecond after clocking in, the source clocks out and stores a
   * duration of 0; the corrected toggle rejects the clock-out.
   */
  lemma SubSecondClockOutStoresZeroDuration()
    ensures var rows := [SleepRecord(1, 7, Some(0), None, None, 0)];
      ToggleAsWritten(rows, 2, 7, 1) ==
        (ClockedOut(SleepRecord(1, 7, Some(0), Some(1), Some(0), 0)), [SleepRecord(1, 7, Some(0), Some(1), Some(0), 0)]) &&
      Toggle(rows, 2, 7, 1) == (ClockOutRejected({WakeUpNotAfterSleep}), rows)
  {
    var rows := [SleepRecord(1, 7, Some(0), None, None, 0)];
    var edited := SleepRecord(1, 7, Some(0), Some(1), None, 0);
    assert FirstInProgress(rows, 7) == Some(0);
    assert rows[0].(wakeUpAt := Some(1)) == edited;
    assert WholeSeconds(1) == 0;
    assert FieldErrors(edited) == {} by {
      forall e | e in FieldErrors(edited) ensures false {
        match e
        case SleepAtBlank =>
        case DurationNotPositive =>
        case WakeUpNotAfterSleep =>
      }
    }
    assert WakeUpAfterSleepAsWritten(edited) == {};
    assert ValidationErrorsAsWritten(edited) == {};
    assert WakeUpAfterSleep(edited) == {WakeUpNotAfterSleep};
    assert ValidationErrors(edited) == {WakeUpNotAfterSleep};
    assert SaveAsWritten(edited) == Ok(SleepRecord(1, 7, Some(0), Some(1), Some(0), 0));
    assert Save(edited) == Err({WakeUpNotAfterSleep});
    var stored := SleepRecord(1, 7, Some(0), Some(1), Some(0), 0);
    assert rows[0 := stored] == [stored];
    assert ToggleAsWritten(rows, 2, 7, 1) == (ClockedOut(stored), rows[0 := stored]);
  }

  /** The toggle writes only the current user's records: every other row is as it was. */
  lemma ToggleTouchesOnlyUser(rows: seq<SleepRecord>, nextId: RecordId, user: UserId, now: Time)
    ensures var rows' := Toggle(rows, nextId, user, now).1;
      |rows'| >= |rows| &&
      (forall i :: 0 <= i < |rows| && rows[i].userId != user ==> rows'[i] == rows[i]) &&
      (forall i :: |rows| <= i < |rows'| ==> rows'[i].userId == user)
  {
  }

  /** Starting from at most one in-progress record per user, the toggle keeps at most one. */
  lemma TogglePreservesAtMostOne(rows: seq<SleepRecord>, nextId: RecordId, user: UserId, now: Time)
    requires AtMostOneInProgress(rows)
    ensures AtMostOneInProgress(Toggle(rows, nextId, user, now).1)
  {
  }

  /** The source's toggle, too, writes only the current user's records. */
  lemma ToggleAsWrittenTouchesOnlyUser(rows: seq<SleepRecord>, nextId: RecordId, user: UserId, now: Time)
    ensures var rows' := ToggleAsWritten(rows, nextId, user, now).1;
      |rows'| >= |rows| &&
      (forall i :: 0 <= i < |rows| && rows[i].userId != user ==> rows'[i] == rows[i]) &&
      (forall i :: |rows| <= i < |rows'| ==> rows'[i].userId == user)
  {
  }

  /** The source's toggle, too, keeps at most one in-progress record per user. */
  lemma ToggleAsWrittenPreservesAtMostOne(rows: seq<SleepRecord>, nextId: RecordId, user: UserId, now: Time)
    requires AtMostOneInProgress(rows)
    ensures AtMostOneInProgress(ToggleAsWritten(rows, nextId, user, now).1)
  {
  }

  /**
   * Repeated toggles alternate. After a clock-in, a toggle at least a second
   * later clocks out; after a clock-out (with at most one open session per
   * user), the next toggle clocks in.
   */
  lemma ToggleAlternates(rows: seq<SleepRecord>, nextId: RecordId, nextId': RecordId, user: UserId, now: Time, later: Time)
    requires AtMostOneInProgress(rows)
    requires forall i :: 0 <= i < |rows| ==> Persisted(rows[i])
    requires later >= now + TicksPerSecond
    ensures var (first, rows') := Toggle(rows, nextId, user, now);
      (first.ClockedIn? ==> Toggle(rows', nextId', user, later).0.ClockedOut?) &&
      (first.ClockedOut? ==> Toggle(rows', nextId', user, later).0.ClockedIn?)
  {
    var (first, rows') := Toggle(rows, nextId, user, now);
    match FirstInProgress(rows, user)
    case None =>
      var n := |rows|;
      assert rows'[n].userId == user && InProgress(rows'[n]);
      var k := FirstInProgress(rows', user);
      assert k == Some(n) by {
        assert forall j :: 0 <= j < n ==> rows'[j] == rows[j];
      }
      ToggleOutcomes(rows', nextId', user, later) by {
        forall i | 0 <= i < |rows'| ensures Persisted(rows'[i]) {
          if i < n { assert rows'[i] == rows[i]; }
        }
      }
    case Some(k) =>
      var edited := rows[k].(wakeUpAt := Some(now));
      if Save(edited).Ok? {
        assert Completed(rows'[k]);
        forall j | 0 <= j < |rows'| ensures !(rows'[j].userId == user && InProgress(rows'[j])) {
          if j != k {
            assert rows'[j] == rows[j];
          }
        }
      }
  }

  // ---------------------------------------------------------------------
  // GET /api/v1/users/:user_id/sleep_records

  /** `index`: exactly the user's own records, newest created_at first. */
  function Index(rows: seq<SleepRecord>, user: UserId): (r: seq<SleepRecord>)
    ensures forall x :: multiset(r)[x] == if x.userId == user then multiset(rows)[x] else 0
    ensures forall x :: x in r <==> x in rows && x.userId == user
    ensures forall i, j :: 0 <= i < j < |r| ==> r[i].createdAt >= r[j].createdAt
  {
    Recent(ForUser(rows, user))
  }

  // ---------------------------------------------------------------------
  // GET /api/v1/users/:user_id/sleep_records/friends_sleep_records

  /** The three conditions a feed record meets. */
  predicate InFeed(r: SleepRecord, following: set<UserId>, oneWeekAgo: Time, now: Time)
  {
    r.userId in following && SleptBetween(r, oneWeekAgo, now) && Completed(r)
  }

  /** `order(duration_in_seconds: :desc)`; like MySQL, a nil duration sorts last. */
  predicate LongerOrSame(a: SleepRecord, b: SleepRecord)
  {
    match (a.durationInSeconds, b.durationInSeconds)
    case (Some(x), Some(y)) => x >= y
    case (Some(_), None) => true
    case (None, Some(_)) => false
    case (None, None) => true
  }

  lemma LongerOrSameIsTotalPreorder()
    ensures TotalPreorder(LongerOrSame)
  {
  }

  /**
   * `fetch_friends_sleep_records`: the records of followed users that started
   * in [one_week_ago, now] and are completed, longest first. Each qualifying
   * record appears as often as in the store, and nothing else does.
   */
  function FetchFriendsSleepRecords(rows: seq<SleepRecord>, following: set<UserId>, oneWeekAgo: Time, now: Time): (r: seq<SleepRecord>)
    ensures forall x :: multiset(r)[x] == if InFeed(x, following, oneWeekAgo, now) then multiset(rows)[x] else 0
    ensures forall x :: x in r <==> x in rows && InFeed(x, following, oneWeekAgo, now)
    ensures SortedBy(r, LongerOrSame)
  {
    var selected := CompletedRecords(BetweenDates(OwnedBy(rows, following), oneWeekAgo, now));
    LongerOrSameIsTotalPreorder();
    SortByPermutes(selected, LongerOrSame);
    SortBySorted(selected, LongerOrSame);
    SortBy(selected, LongerOrSame)
  }

  /** The feed is non-increasing in duration_in_seconds. */
  lemma FeedLongestFirst(rows: seq<SleepRecord>, following: set<UserId>, oneWeekAgo: Time, now: Time)
    ensures var r := FetchFriendsSleepRecords(rows, following, oneWeekAgo, now);
      forall i, j :: 0 <= i < j < |r| && r[j].durationInSeconds.Some? ==>
        r[i].durationInSeconds.Some? && r[i].durationInSeconds.value >= r[j].durationInSeconds.value
  {
  }

  /** A user who follows nobody sees an empty feed. */
  lemma FeedEmptyWhenFollowingNobody(rows: seq<SleepRecord>, oneWeekAgo: Time, now: Time)
    ensures FetchFriendsSleepRecords(rows, {}, oneWeekAgo, now) == []
  {
  }

  /** `friends_sleep_records`: the feed of the current user over the past week. */
  function FriendsSleepRecords(t: SleepRecordTable, g: Follows.FollowTable, user: UserId, now: Time): (r: seq<SleepRecord>)
    reads t, g
    ensures forall x :: x in r <==>
      x in t.rows && Users.IsFollowing(g, user, x.userId) && Completed(x) &&
      x.sleepAt.Some? && now - OneWeek <= x.sleepAt.value <= now
    ensures SortedBy(r, LongerOrSame)
  {
    FetchFriendsSleepRecords(t.rows, Users.Followees(g.rows, user), now - OneWeek, now)
  }

  // ---------------------------------------------------------------------
  // Worked examples

  /** Clock in at t0, clock out eight hours later: one record of 28800 seconds. */
  lemma EightHourNight(user: UserId, t0: Time)
    ensures var (first, rows) := Toggle([], 1, user, t0);
      first == ClockedIn(SleepRecord(1, user, Some(t0), None, None, t0)) &&
      var (second, rows') := Toggle(rows, 2, user, t0 + 8 * 60 * 60 * TicksPerSecond);
      second.ClockedOut? &&
      rows' == [SleepRecord(1, user, Some(t0), Some(t0 + 8 * 60 * 60 * TicksPerSecond), Some(28800), t0)]
  {
  }

  /**
   * The friends-feed scenario of the request specs. The caller follows
   * users 2 and 3 but not 4. User 2 slept 8 hours two days ago, 7 hours
   * four days ago and 8 hours two weeks ago; user 3 slept 9 hours a day
   * ago; user 4 slept 8 hours a day ago. The feed is user 3's night, then
   * user 2's two nights of the last week, longest first.
   */
  lemma FriendsFeedScenario()
    ensures FetchFriendsSleepRecords(LastWeek + Others, {2, 3}, Now - OneWeek, Now) == [FriendTwo, FriendOneRecent, FriendOneOlder]
  {
    SelectedNights();
    LongestNightFirst();
  }

  /** The followed users' completed nights of the last week. */
  lemma SelectedNights()
    ensures CompletedRecords(BetweenDates(OwnedBy(LastWeek + Others, {2, 3}), Now - OneWeek, Now)) == LastWeek
  {
    FollowedNights();
    LastWeeksNights();
    AllCompleted();
  }

  lemma AllCompleted()
    ensures CompletedRecords(LastWeek) == LastWeek
  {
    FilterKeepsAll(LastWeek, Completed);
  }

  /** Only the followed users' nights remain. */
  lemma FollowedNights()
    ensures OwnedBy(LastWeek + Others, {2, 3}) == LastWeek + [FriendOneOld]
  {
    OwnedByAppend(LastWeek, Others, {2, 3});
    FriendsKept();
    StrangerDropped();
  }

  lemma FriendsKept()
    ensures OwnedBy(LastWeek, {2, 3}) == LastWeek
  {
    OwnedByKeepsAll(LastWeek, {2, 3});
  }

  lemma StrangerDropped()
    ensures OwnedBy(Others, {2, 3}) == [FriendOneOld]
  {
    assert Others[1..] == [FriendOneOld] && [FriendOneOld][1..] == [];
  }

  /** Of the followed users' nights, the three that started in the last week remain. */
  lemma LastWeeksNights()
    ensures BetweenDates(LastWeek + [FriendOneOld], Now - OneWeek, Now) == LastWeek
  {
    BetweenDatesAppend(LastWeek, [FriendOneOld], Now - OneWeek, Now);
    RecentNightsKept();
    OldNightDropped();
    assert LastWeek + [] == LastWeek;
  }

  lemma RecentNightsKept()
    ensures BetweenDates(LastWeek, Now - OneWeek, Now) == LastWeek
  {
    FilterKeepsAll(LastWeek, x => SleptBetween(x, Now - OneWeek, Now));
  }

  lemma OldNightDropped()
    ensures BetweenDates([FriendOneOld], Now - OneWeek, Now) == []
  {
    assert [FriendOneOld][1..] == [];
  }

  /** 9 hours, then 8, then 7. */
  lemma LongestNightFirst()
    ensures SortBy(LastWeek, LongerOrSame) == [FriendTwo, FriendOneRecent, FriendOneOlder]
  {
    var rows := LastWeek;
    assert rows[1..] == [FriendOneOlder, FriendTwo] && rows[1..][1..] == [FriendTwo] && [FriendTwo][1..] == [];
    assert SortBy([FriendTwo], LongerOrSame) == [FriendTwo];
    assert !LongerOrSame(FriendOneOlder, FriendTwo);
    assert [FriendTwo, FriendOneOlder][1..] == [FriendOneOlder] && [FriendOneOlder][1..] == [];
    assert Insert(FriendOneOlder, [FriendTwo], LongerOrSame) == [FriendTwo, FriendOneOlder];
    assert SortBy([FriendOneOlder, FriendTwo], LongerOrSame) == [FriendTwo, FriendOneOlder];
    assert !LongerOrSame(FriendOneRecent, FriendTwo) && LongerOrSame(FriendOneRecent, FriendOneOlder);
    assert Insert(FriendOneRecent, [FriendOneOlder], LongerOrSame) == [FriendOneRecent, FriendOneOlder];
    assert Insert(FriendOneRecent, [FriendTwo, FriendOneOlder], LongerOrSame) == [FriendTwo, FriendOneRecent, FriendOneOlder];
  }

  const Hour: int := 60 * 60 * TicksPerSecond
  const Day: int := 24 * Hour
  const Now: Time := 30 * Day

  // Completed nights, each created at Now.
  const FriendOneRecent: SleepRecord := SleepRecord(1, 2, Some(Now - 2 * Day), Some(Now - 2 * Day + 8 * Hour), Some(28800), Now)
  const FriendOneOlder: SleepRecord := SleepRecord(2, 2, Some(Now - 4 * Day), Some(Now - 4 * Day + 7 * Hour), Some(25200), Now)
  const FriendTwo: SleepRecord := SleepRecord(3, 3, Some(Now - Day), Some(Now - Day + 9 * Hour), Some(32400), Now)
  const Stranger: SleepRecord := SleepRecord(4, 4, Some(Now - Day), Some(Now - Day + 8 * Hour), Some(28800), Now)
  const FriendOneOld: SleepRecord := SleepRecord(5, 2, Some(Now - 14 * Day), Some(Now - 14 * Day + 8 * Hour), Some(28800), Now)

  /** The followed users' nights of the last week, in the order they were created. */
  const LastWeek: seq<SleepRecord> := [FriendOneRecent, FriendOneOlder, FriendTwo]
  /** The stranger's night, then user 2's two-week-old one. */
  const Others: seq<SleepRecord> := [Stranger, FriendOneOld]
}
