/**
 * The SleepRecord model: one sleep session of one user.
 *
 * Timestamps are integer microseconds (the datetime columns keep six
 * fractional digits and `Time - Time` is a fractional number of seconds);
 * `duration_in_seconds` is a whole number of seconds. `nil` is `None`.
 */
module SleepRecords {
  import opened Wrappers
  import opened Ordering

  type UserId = nat
  type RecordId = nat
  type Time = int

  const TicksPerSecond: int := 1000000

  datatype SleepRecord = SleepRecord(
    id: RecordId,
    userId: UserId,
    sleepAt: Option<Time>,
    wakeUpAt: Option<Time>,
    durationInSeconds: Option<int>,
    createdAt: Time)

  datatype RecordError = SleepAtBlank | DurationNotPositive | WakeUpNotAfterSleep

  /** `(wake_up_at - sleep_at).to_i`: a span in ticks as whole seconds, truncated toward zero. */
  function WholeSeconds(ticks: int): (s: int)
    ensures ticks >= 0 ==> 0 <= s * TicksPerSecond <= ticks < (s + 1) * TicksPerSecond
    ensures ticks < 0 ==> (s - 1) * TicksPerSecond < ticks <= s * TicksPerSecond <= 0
  {
    if ticks >= 0 then ticks / TicksPerSecond else -((-ticks) / TicksPerSecond)
  }

  /** `completed?`: the record has a wake-up time. */
  predicate Completed(r: SleepRecord)
  {
    r.wakeUpAt.Some?
  }

  /** `in_progress?`: exactly the records that are not completed. */
  function InProgress(r: SleepRecord): (b: bool)
    ensures b <==> !Completed(r)
  {
    r.wakeUpAt.None?
  }

  // ---------------------------------------------------------------------
  // Validations and the before_save hook

  /** `validates :sleep_at, presence: true` and `validates :duration_in_seconds, numericality: { greater_than: 0 }, allow_nil: true`. */
  function FieldErrors(r: SleepRecord): (errs: set<RecordError>)
    ensures WakeUpNotAfterSleep !in errs
    ensures SleepAtBlank in errs <==> r.sleepAt.None?
    ensures DurationNotPositive in errs <==> r.durationInSeconds.Some? && r.durationInSeconds.value <= 0
  {
    (if r.sleepAt.None? then {SleepAtBlank} else {}) +
    (if r.durationInSeconds.Some? && r.durationInSeconds.value <= 0 then {DurationNotPositive} else {})
  }

  /**
   * `wake_up_after_sleep` as the source writes it: skipped unless both
   * timestamps are present, an error when wake_up_at <= sleep_at.
   */
  function WakeUpAfterSleepAsWritten(r: SleepRecord): (errs: set<RecordError>)
    ensures errs <= {WakeUpNotAfterSleep}
    ensures errs != {} <==> r.sleepAt.Some? && r.wakeUpAt.Some? && r.wakeUpAt.value <= r.sleepAt.value
  {
    if r.sleepAt.Some? && r.wakeUpAt.Some? && r.wakeUpAt.value <= r.sleepAt.value then {WakeUpNotAfterSleep} else {}
  }

  function ValidationErrorsAsWritten(r: SleepRecord): (errs: set<RecordError>)
    ensures errs == {} <==>
      r.sleepAt.Some? &&
      (r.durationInSeconds.Some? ==> r.durationInSeconds.value > 0) &&
      (r.wakeUpAt.Some? ==> r.wakeUpAt.value > r.sleepAt.value)
  {
    FieldErrors(r) + WakeUpAfterSleepAsWritten(r)
  }

  /**
   * `wake_up_after_sleep` corrected: the session must last at least one
   * whole second, so that the duration the hook derives is positive.
   */
  function WakeUpAfterSleep(r: SleepRecord): (errs: set<RecordError>)
    ensures errs <= {WakeUpNotAfterSleep}
    ensures errs != {} <==> r.sleepAt.Some? && r.wakeUpAt.Some? && r.wakeUpAt.value < r.sleepAt.value + TicksPerSecond
  {
    if r.sleepAt.Some? && r.wakeUpAt.Some? && WholeSeconds(r.wakeUpAt.value - r.sleepAt.value) <= 0
    then {WakeUpNotAfterSleep} else {}
  }

  /** The errors `valid?` reports (with the corrected timestamp rule). */
  function ValidationErrors(r: SleepRecord): (errs: set<RecordError>)
    ensures errs == {} <==>
      r.sleepAt.Some? &&
      (r.durationInSeconds.Some? ==> r.durationInSeconds.value > 0) &&
      (r.wakeUpAt.Some? ==> r.wakeUpAt.value >= r.sleepAt.value + TicksPerSecond)
    ensures ValidationErrorsAsWritten(r) <= errs
  {
    FieldErrors(r) + WakeUpAfterSleep(r)
  }

  /** `calculate_duration`, the before_save hook. */
  function CalculateDuration(r: SleepRecord): (s: SleepRecord)
    ensures s.(durationInSeconds := r.durationInSeconds) == r
    ensures r.sleepAt.None? || r.wakeUpAt.None? ==> s == r
    ensures r.sleepAt.Some? && r.wakeUpAt.Some? && r.wakeUpAt.value >= r.sleepAt.value ==>
      s.durationInSeconds.Some? &&
      0 <= s.durationInSeconds.value * TicksPerSecond <= r.wakeUpAt.value - r.sleepAt.value < (s.durationInSeconds.value + 1) * TicksPerSecond
    ensures r.sleepAt.Some? && r.wakeUpAt.Some? && r.wakeUpAt.value < r.sleepAt.value ==>
      s.durationInSeconds.Some? &&
      (s.durationInSeconds.value - 1) * TicksPerSecond < r.wakeUpAt.value - r.sleepAt.value <= s.durationInSeconds.value * TicksPerSecond <= 0
  {
    if r.sleepAt.Some? && r.wakeUpAt.Some? then
      r.(durationInSeconds := Some(WholeSeconds(r.wakeUpAt.value - r.sleepAt.value)))
    else r
  }

  /**
   * `save!` as the source has it: validate, then run the hook, then store.
   * A stored row is the given one with its duration derived, which may be 0.
   */
  function SaveAsWritten(r: SleepRecord): (res: Result<SleepRecord, set<RecordError>>)
    ensures res.Ok? <==>
      r.sleepAt.Some? &&
      (r.durationInSeconds.Some? ==> r.durationInSeconds.value > 0) &&
      (r.wakeUpAt.Some? ==> r.wakeUpAt.value > r.sleepAt.value)
    ensures res.Err? ==> res.error != {} && res.error == ValidationErrorsAsWritten(r)
    ensures res.Ok? && InProgress(r) ==> res.value == r
    ensures res.Ok? ==> res.value.(durationInSeconds := r.durationInSeconds) == r && res.value.sleepAt.Some?
    ensures res.Ok? && Completed(res.value) ==>
      res.value.durationInSeconds == Some(WholeSeconds(res.value.wakeUpAt.value - res.value.sleepAt.value)) &&
      res.value.durationInSeconds.value >= 0
  {
    var errs := ValidationErrorsAsWritten(r);
    if errs != {} then Err(errs) else Ok(CalculateDuration(r))
  }

  /**
   * `save!` with the corrected timestamp rule. A record it accepts is stored
   * as the same row in its persisted form; a completed one has a positive
   * duration.
   */
  function Save(r: SleepRecord): (res: Result<SleepRecord, set<RecordError>>)
    ensures res.Ok? <==>
      r.sleepAt.Some? &&
      (r.durationInSeconds.Some? ==> r.durationInSeconds.value > 0) &&
      (r.wakeUpAt.Some? ==> r.wakeUpAt.value >= r.sleepAt.value + TicksPerSecond)
    ensures res.Err? ==> res.error != {} && res.error == ValidationErrors(r)
    ensures res.Ok? && InProgress(r) ==> res.value == r
    ensures res.Ok? ==> Persisted(res.value) && res.value.(durationInSeconds := r.durationInSeconds) == r
    ensures res.Ok? && Completed(res.value) ==> res.value.durationInSeconds.value > 0
  {
    var errs := ValidationErrors(r);
    if errs != {} then Err(errs) else Ok(CalculateDuration(r))
  }

  /**
   * What every stored record satisfies: sleep_at present, a manually set
   * duration of an in-progress record positive, and a completed record at
   * least one second long with its duration derived from its timestamps.
   */
  ghost predicate Persisted(r: SleepRecord)
  {
    r.sleepAt.Some? &&
    (r.durationInSeconds.Some? ==> r.durationInSeconds.value > 0) &&
    (r.wakeUpAt.Some? ==>
      r.wakeUpAt.value >= r.sleepAt.value + TicksPerSecond &&
      r.durationInSeconds == Some(WholeSeconds(r.wakeUpAt.value - r.sleepAt.value)))
  }

  /**
   * The corrected save! and the source's agree on every record the corrected
   * one accepts. They part exactly on a session shorter than one second:
   * the corrected save! rejects it, the source's stores it with duration 0.
   */
  lemma SaveMatchesAsWritten(r: SleepRecord)
    ensures Save(r).Ok? ==> SaveAsWritten(r) == Save(r)
    ensures Save(r).Err? <==>
      SaveAsWritten(r).Err? ||
      (r.sleepAt.Some? && r.wakeUpAt.Some? && r.sleepAt.value < r.wakeUpAt.value < r.sleepAt.value + TicksPerSecond)
    ensures Save(r).Err? && SaveAsWritten(r).Ok? ==> SaveAsWritten(r).value.durationInSeconds == Some(0)
  {
  }

  /** Re-saving a stored record changes nothing. */
  lemma ResaveIsIdentity(r: SleepRecord)
    requires Persisted(r)
    ensures Save(r) == Ok(r)
  {
  }

  /** Saving an in-progress record keeps its duration, including one set by hand. */
  lemma SaveKeepsDurationWhileInProgress(r: SleepRecord)
    requires InProgress(r) && Save(r).Ok?
    ensures Save(r).value == r
  {
  }

  /** Saving a completed record derives its duration: the whole seconds between the timestamps. */
  lemma SaveDerivesDuration(r: SleepRecord)
    requires Completed(r) && Save(r).Ok?
    ensures Save(r).value.durationInSeconds == Some(WholeSeconds(r.wakeUpAt.value - r.sleepAt.value))
    ensures Save(r).value.durationInSeconds.value >= 1
  {
  }

  /**
   * The source's order of validation and hook lets a sub-second session
   * through: it validates (wake_up_at > sleep_at, no duration yet), then
   * the hook stores duration 0, which the duration rule itself rejects.
   */
  lemma SubSecondSessionStoresZeroDuration()
    ensures var r := SleepRecord(1, 1, Some(0), Some(TicksPerSecond / 2), None, 0);
      SaveAsWritten(r).Ok? &&
      SaveAsWritten(r).value.durationInSeconds == Some(0) &&
      DurationNotPositive in ValidationErrorsAsWritten(SaveAsWritten(r).value)
  {
  }

  /** With the corrected rule, the same session is rejected. */
  lemma SubSecondSessionRejected()
    ensures Save(SleepRecord(1, 1, Some(0), Some(TicksPerSecond / 2), None, 0)) == Err({WakeUpNotAfterSleep})
  {
    var r := SleepRecord(1, 1, Some(0), Some(TicksPerSecond / 2), None, 0);
    forall e | e in FieldErrors(r) ensures false {
      match e
      case SleepAtBlank =>
      case DurationNotPositive =>
      case WakeUpNotAfterSleep =>
    }
    assert FieldErrors(r) == {};
    assert WholeSeconds(TicksPerSecond / 2) == 0;
    assert WakeUpAfterSleep(r) == {WakeUpNotAfterSleep};
    assert ValidationErrors(r) == {WakeUpNotAfterSleep};
    assert Save(r) == Err({WakeUpNotAfterSleep});
  }

  /** `create!(sleep_at: now)` (a clock-in) always passes validation and stores the record as given. */
  lemma ClockInRecordIsValid(id: RecordId, user: UserId, now: Time)
    ensures Save(SleepRecord(id, user, Some(now), None, None, now)) == Ok(SleepRecord(id, user, Some(now), None, None, now))
  {
  }

  // ---------------------------------------------------------------------
  // Scopes

  /** `for_user(user)`: the records owned by user. */
  function ForUser(rows: seq<SleepRecord>, user: UserId): (r: seq<SleepRecord>)
    ensures forall x :: multiset(r)[x] == if x.userId == user then multiset(rows)[x] else 0
    ensures forall x :: x in r <==> x in rows && x.userId == user
  {
    Filter(rows, (x: SleepRecord) => x.userId == user)
  }

  /** `where(user: users)`: records owned by any of the given users. */
  function OwnedBy(rows: seq<SleepRecord>, users: set<UserId>): (r: seq<SleepRecord>)
    ensures forall x :: multiset(r)[x] == if x.userId in users then multiset(rows)[x] else 0
    ensures forall x :: x in r <==> x in rows && x.userId in users
  {
    Filter(rows, (x: SleepRecord) => x.userId in users)
  }

  /** When every row belongs to one of the users, `where(user: users)` keeps the rows and their order. */
  lemma OwnedByKeepsAll(rows: seq<SleepRecord>, users: set<UserId>)
    requires forall i :: 0 <= i < |rows| ==> rows[i].userId in users
    ensures OwnedBy(rows, users) == rows
  {
    FilterKeepsAll(rows, (x: SleepRecord) => x.userId in users);
  }

  /** `where(user: users)` over two runs of rows is the scope of each run, in order. */
  lemma OwnedByAppend(a: seq<SleepRecord>, b: seq<SleepRecord>, users: set<UserId>)
    ensures OwnedBy(a + b, users) == OwnedBy(a, users) + OwnedBy(b, users)
  {
    FilterAppend(a, b, (x: SleepRecord) => x.userId in users);
  }

  predicate SleptBetween(r: SleepRecord, start: Time, end: Time)
  {
    r.sleepAt.Some? && start <= r.sleepAt.value <= end
  }

  /** `between_dates(start, end)`: sleep_at in the closed range (a nil sleep_at never matches). */
  function BetweenDates(rows: seq<SleepRecord>, start: Time, end: Time): (r: seq<SleepRecord>)
    ensures forall x :: multiset(r)[x] == if SleptBetween(x, start, end) then multiset(rows)[x] else 0
    ensures forall x :: x in r <==> x in rows && x.sleepAt.Some? && start <= x.sleepAt.value <= end
  {
    Filter(rows, x => SleptBetween(x, start, end))
  }

  /** `between_dates` over two runs of rows is the scope of each run, in order. */
  lemma BetweenDatesAppend(a: seq<SleepRecord>, b: seq<SleepRecord>, start: Time, end: Time)
    ensures BetweenDates(a + b, start, end) == BetweenDates(a, start, end) + BetweenDates(b, start, end)
  {
    FilterAppend(a, b, x => SleptBetween(x, start, end));
  }

  /** `completed`: the records that have a wake-up time. */
  function CompletedRecords(rows: seq<SleepRecord>): (r: seq<SleepRecord>)
    ensures forall x :: multiset(r)[x] == if x.wakeUpAt.Some? then multiset(rows)[x] else 0
  {
    Filter(rows, Completed)
  }

  /** `in_progress`: the records still without a wake-up time. */
  function InProgressRecords(rows: seq<SleepRecord>): (r: seq<SleepRecord>)
    ensures forall x :: multiset(r)[x] == if x.wakeUpAt.None? then multiset(rows)[x] else 0
  {
    Filter(rows, InProgress)
  }

  /** What is left once one user's records are destroyed: exactly the other users' records. */
  function WithoutUser(rows: seq<SleepRecord>, user: UserId): (r: seq<SleepRecord>)
    ensures forall x :: multiset(r)[x] == if x.userId != user then multiset(rows)[x] else 0
    ensures forall x :: x in r ==> x.userId != user
  {
    Filter(rows, (x: SleepRecord) => x.userId != user)
  }

  /** The `completed` and `in_progress` scopes split every record set in two. */
  lemma CompletedAndInProgressPartition(rows: seq<SleepRecord>)
    ensures multiset(CompletedRecords(rows)) + multiset(InProgressRecords(rows)) == multiset(rows)
    ensures forall x :: !(x in CompletedRecords(rows) && x in InProgressRecords(rows))
  {
  }

  predicate NewerOrSame(a: SleepRecord, b: SleepRecord)
  {
    a.createdAt >= b.createdAt
  }

  /** `recent`: the same records, newest created_at first. */
  function Recent(rows: seq<SleepRecord>): (r: seq<SleepRecord>)
    ensures multiset(r) == multiset(rows)
    ensures forall i, j :: 0 <= i < j < |r| ==> r[i].createdAt >= r[j].createdAt
  {
    SortByPermutes(rows, NewerOrSame);
    SortBySorted(rows, NewerOrSame);
    SortBy(rows, NewerOrSame)
  }

  // ---------------------------------------------------------------------
  // The stored records

  /** Row indices strictly increase with the record ids (ids are handed out in order). */
  predicate IdBefore(a: SleepRecord, b: SleepRecord)
  {
    a.id < b.id
  }

  /**
   * `in_progress.first` of one user: the in-progress record of that user
   * with the smallest id, which is the first one in the table order.
   */
  function FirstInProgress(rows: seq<SleepRecord>, user: UserId): (k: Option<nat>)
    ensures k.Some? ==> k.value < |rows| && rows[k.value].userId == user && InProgress(rows[k.value])
    ensures k.Some? ==> forall j :: 0 <= j < k.value ==> !(rows[j].userId == user && InProgress(rows[j]))
    ensures k.None? <==> forall j :: 0 <= j < |rows| ==> !(rows[j].userId == user && InProgress(rows[j]))
  {
    if rows == [] then None
    else if rows[0].userId == user && InProgress(rows[0]) then Some(0)
    else match FirstInProgress(rows[1..], user)
      case None => None
      case Some(k) => Some(k + 1)
  }

  /** Each user has at most one in-progress record. */
  ghost predicate AtMostOneInProgress(rows: seq<SleepRecord>)
  {
    forall i, j ::
      0 <= i < |rows| && 0 <= j < |rows| &&
      rows[i].userId == rows[j].userId && InProgress(rows[i]) && InProgress(rows[j])
      ==> i == j
  }

  /** The sleep_records table. */
  class SleepRecordTable {
    var rows: seq<SleepRecord>
    var nextId: RecordId

    ghost predicate Valid()
      reads this
    {
      (forall i :: 0 <= i < |rows| ==> Persisted(rows[i]) && rows[i].id < nextId) &&
      SortedBy(rows, IdBefore)
    }

    constructor ()
      ensures Valid() && rows == []
    {
      rows := [];
      nextId := 1;
    }

    /** `create!`: a new row with the next id, validated and run through the hook. */
    method Create(userId: UserId, sleepAt: Option<Time>, wakeUpAt: Option<Time>, durationInSeconds: Option<int>, now: Time)
      returns (res: Result<SleepRecord, set<RecordError>>)
      requires Valid()
      modifies this
      ensures Valid()
      ensures res == Save(SleepRecord(old(nextId), userId, sleepAt, wakeUpAt, durationInSeconds, now))
      ensures res.Ok? ==> rows == old(rows) + [res.value] && res.value.id == old(nextId) < nextId
      ensures res.Err? ==> rows == old(rows) && nextId == old(nextId)
    {
      res := Save(SleepRecord(nextId, userId, sleepAt, wakeUpAt, durationInSeconds, now));
      if res.Ok? {
        rows := rows + [res.value];
        nextId := nextId + 1;
      }
    }

    /** `save!` of an edited copy r of the row at index i. */
    method Update(i: nat, r: SleepRecord) returns (res: Result<SleepRecord, set<RecordError>>)
      requires Valid()
      requires i < |rows| && r.id == rows[i].id
      modifies this
      ensures Valid()
      ensures res == Save(r)
      ensures res.Ok? ==> rows == old(rows)[i := res.value]
      ensures res.Err? ==> rows == old(rows)
      ensures nextId == old(nextId)
    {
      res := Save(r);
      if res.Ok? {
        rows := rows[i := res.value];
      }
    }

    /** `complete_sleep!(wake_time)`: sets wake_up_at and the duration, then save!. */
    method CompleteSleep(i: nat, wakeTime: Time) returns (res: Result<SleepRecord, set<RecordError>>)
      requires Valid()
      requires i < |rows|
      modifies this
      ensures Valid()
      ensures res.Ok? <==> wakeTime >= old(rows[i]).sleepAt.value + TicksPerSecond
      ensures res.Ok? ==>
        rows == old(rows)[i := res.value] &&
        res.value == old(rows[i]).(wakeUpAt := Some(wakeTime),
                                   durationInSeconds := Some(WholeSeconds(wakeTime - old(rows[i]).sleepAt.value)))
      ensures res.Err? ==> rows == old(rows)
      ensures nextId == old(nextId)
    {
      var r := rows[i];
      var edited := r.(wakeUpAt := Some(wakeTime), durationInSeconds := Some(WholeSeconds(wakeTime - r.sleepAt.value)));
      res := Update(i, edited);
    }

    /** The `dependent: :destroy` cascade of one user: that user's records go, all others stay. */
    method DestroyForUser(user: UserId)
      requires Valid()
      modifies this
      ensures Valid()
      ensures rows == WithoutUser(old(rows), user)
      ensures nextId == old(nextId)
    {
      FilterKeepsSorted(rows, (x: SleepRecord) => x.userId != user, IdBefore);
      rows := WithoutUser(rows, user);
    }
  }
}
