# Sleep tracker core, modelled in Dafny

This project models the sleep-tracking API. A user clocks in to start a sleep session and clocks out to end it. A user can follow other users. The API lists a user's own sessions, and it lists a feed of friends' sessions from the last week, longest first. The model covers the Rails models `SleepRecord`, `User` and `Follow`, plus the logic of `Api::V1::SleepRecordsController` (the toggle, `index` and the feed).

Layout:

- `wrappers.dfy` (`Wrappers`) holds the `Option` and `Result` datatypes. `None` stands for SQL `NULL` / Ruby `nil`.
- `ordering.dfy` (`Ordering`) holds the relational operations the scopes are built from:
  - `Filter` models `where`, keeping the order of the store.
  - `SortBy` models `order`, as a stable insertion sort under a total preorder.
  - Lemmas state that `Filter` and `SortBy` permute, sort, and keep sortedness.
- `sleep_record.dfy` (`SleepRecords`) covers:
  - the record datatype;
  - the validations and the `before_save` duration hook, with `save!` as the pure function `Save`;
  - the scopes;
  - the `sleep_records` table, a class whose `rows` sequence is updated in place by `create!`, `save!`, `complete_sleep!` and the dependent destroy.
- `follow.dfy` (`Follows`) covers the follow edge, its two validations, its scopes, and the `follows` table class.
- `user.dfy` (`Users`) covers:
  - the name validation;
  - the follow-graph operations `follow`, `unfollow`, `following?`, `follower_count` and `following_count`, over the edge table;
  - the users table;
  - `destroy` with its two `dependent: :destroy` cascades.
- `sleep_records_controller.dfy` (`SleepRecordsController`) covers:
  - the clock toggle of `create`, as the pure function `Toggle` and as the method `ClockToggle` on the table;
  - `index`;
  - the friends feed;
  - a few worked examples.

Modelling choices:

- **Time.** Timestamps are integer microseconds, because the datetime columns keep six fractional digits. `Time - Time` is a fractional number of seconds, and `.to_i` truncates it toward zero. `WholeSeconds` models that truncation. `duration_in_seconds` is a whole number of seconds.
- **The clock and window are parameters.** The wall clock `Time.current` is the parameter `now`. The feed window `1.week.ago` is `now - OneWeek`.
- **Table order.** Rows are stored in increasing id order. The model takes this as the order of a query without an `order` clause; SQL itself guarantees no order there.
- **Earliest in-progress row.** `in_progress.first` orders by primary key, so it picks the lowest-id in-progress row.
- **NULL durations sort last.** `order(duration_in_seconds: :desc)` puts `NULL` durations last, as MySQL does for a descending sort. The comparator `LongerOrSame` encodes this.
- **The one-second rule.** The source validates before the `before_save` hook runs, so a session shorter than one second passes validation and is stored with duration 0 (see Findings). `SaveAsWritten`, `ValidationErrorsAsWritten` and `ToggleAsWritten` model this as written. `Save`, `ValidationErrors`, `Toggle` and the table methods apply the corrected rule, where a completed session must last at least one second.
- **Updating a row.** Changing a stored record (`wake_up_at =` followed by `save!`) replaces the row at its index with the saved value.

## Model

| member | source | states |
|---|---|---|
| Ordering.Filter | app/models/sleep_record.rb:12-15 | `where`: each element is kept as often as stored exactly when it satisfies the condition, and nothing else is added |
| Ordering.FilterAppend | app/models/sleep_record.rb:12-15 | `where` distributes over concatenation of row lists |
| Ordering.SortByPermutes | app/controllers/api/v1/sleep_records_controller.rb:62 | `order` returns a permutation of its input |
| Ordering.SortBySorted | app/controllers/api/v1/sleep_records_controller.rb:62 | under a total preorder, `order` returns a sorted list |
| SleepRecords.WholeSeconds | app/models/sleep_record.rb:44 | `(wake - sleep).to_i` in whole seconds: truncation toward zero, so `s` seconds fit in the span and `s + 1` do not (symmetrically for a negative span) |
| SleepRecords.InProgress | app/models/sleep_record.rb:17-23 | `in_progress?` holds exactly when `completed?` does not |
| SleepRecords.FieldErrors | app/models/sleep_record.rb:4-5 | a missing `sleep_at` is an error; a present `duration_in_seconds` must be > 0 and `nil` is allowed |
| SleepRecords.WakeUpAfterSleepAsWritten | app/models/sleep_record.rb:33-39 | the rule as written: an error exactly when both timestamps are present and `wake_up_at <= sleep_at`; skipped when either is nil |
| SleepRecords.ValidationErrorsAsWritten | app/models/sleep_record.rb:4-7 | as written, a record is valid iff `sleep_at` is present, any duration is positive, and any `wake_up_at` is later than `sleep_at` |
| SleepRecords.WakeUpAfterSleep | app/models/sleep_record.rb:33-39 | corrected rule: an error exactly when both timestamps are present and the session is shorter than one second |
| SleepRecords.ValidationErrors | app/models/sleep_record.rb:4-7 | corrected validation, as an iff; every error the as-written rules report is still reported |
| SleepRecords.CalculateDuration | app/models/sleep_record.rb:41-45 | the hook changes only `duration_in_seconds`; it changes nothing unless both timestamps are present; otherwise the duration is the span truncated toward zero to whole seconds, for a non-negative span (`s` seconds fit and `s + 1` do not) and for a negative one (at most 0, and `s - 1` seconds would overshoot) |
| SleepRecords.SaveAsWritten | app/models/sleep_record.rb:4-9 | `save!` as written succeeds iff `sleep_at` is present, any duration is positive and any `wake_up_at` is later than `sleep_at`; it fails with exactly the as-written validation errors, which are never empty; an in-progress record is stored unchanged; on success the record is unchanged except for the duration, `sleep_at` is present, and a completed record gets the truncated span, which is at least 0 |
| SleepRecords.Save | app/models/sleep_record.rb:4-9 | corrected `save!` succeeds iff `sleep_at` is present, any duration is positive and any `wake_up_at` is at least one second after `sleep_at`; a failure reports exactly the corrected validation errors; an in-progress record is stored unchanged; a success is a persisted row (`sleep_at` present, duration positive or nil, at least one second long when completed) that differs from the input only in duration; a completed saved record has a positive duration |
| SleepRecords.SaveMatchesAsWritten | app/models/sleep_record.rb:4-45 | the corrected and the as-written `save!` agree whenever the corrected one succeeds; the corrected one fails exactly when the as-written one fails or the session lasts more than 0 and less than one second; in that extra case the as-written one stores duration 0 |
| SleepRecords.ResaveIsIdentity | app/models/sleep_record.rb:9 | saving an already stored record again changes nothing |
| SleepRecords.SaveKeepsDurationWhileInProgress | app/models/sleep_record.rb:42 | saving with `wake_up_at = nil` leaves the record, including a manually set duration, unchanged |
| SleepRecords.SaveDerivesDuration | app/models/sleep_record.rb:41-45 | saving a completed record sets the duration to the truncated span, which is at least 1 |
| SleepRecords.SubSecondSessionStoresZeroDuration | app/models/sleep_record.rb:7-9 | as written, a half-second session passes validation and is stored with duration 0, which the record's own rules call invalid |
| SleepRecords.SubSecondSessionRejected | app/models/sleep_record.rb:33-39 | with the corrected rule, the same half-second session is rejected as wake-up-not-after-sleep |
| SleepRecords.ClockInRecordIsValid | app/controllers/api/v1/sleep_records_controller.rb:24 | a fresh record with only `sleep_at = now` saves unchanged |
| SleepRecords.ForUser | app/models/sleep_record.rb:12 | `for_user(u)` keeps exactly the records of `u`, each as often as stored |
| SleepRecords.OwnedBy | app/controllers/api/v1/sleep_records_controller.rb:58 | `where(user: users)` keeps exactly the records owned by one of the users |
| SleepRecords.OwnedByAppend | app/controllers/api/v1/sleep_records_controller.rb:58 | `where(user: users)` over two concatenated row lists is the concatenation of the two results |
| SleepRecords.OwnedByKeepsAll | app/controllers/api/v1/sleep_records_controller.rb:58 | when every row is owned by one of the users, the scope returns the rows unchanged |
| SleepRecords.BetweenDates | app/models/sleep_record.rb:13 | `between_dates(s, e)` keeps exactly the records with `s <= sleep_at <= e` |
| SleepRecords.BetweenDatesAppend | app/models/sleep_record.rb:13 | `between_dates` over two concatenated row lists is the concatenation of the two results |
| SleepRecords.CompletedRecords | app/models/sleep_record.rb:14 | `completed` keeps exactly the records whose `wake_up_at` is present |
| SleepRecords.InProgressRecords | app/models/sleep_record.rb:15 | `in_progress` keeps exactly the records whose `wake_up_at` is nil |
| SleepRecords.WithoutUser | app/models/user.rb:4 | destroying a user's records leaves exactly the records of other users |
| SleepRecords.CompletedAndInProgressPartition | app/models/sleep_record.rb:14-15 | `completed` and `in_progress` partition any record set: disjoint, and together all of it |
| SleepRecords.Recent | app/models/sleep_record.rb:11 | `recent` is a permutation ordered by `created_at` descending |
| SleepRecords.FirstInProgress | app/controllers/api/v1/sleep_records_controller.rb:9-11 | `in_progress.first` of a user: the earliest in-progress row of that user, or none exactly when the user has no in-progress row |
| SleepRecords.SleepRecordTable.constructor | app/models/sleep_record.rb:1-2 | an empty table |
| SleepRecords.SleepRecordTable.Create | app/models/sleep_record.rb:4-9 | `create!`: the result is `save!` of the new row; on success the saved row is appended with a fresh id; on failure nothing changes |
| SleepRecords.SleepRecordTable.Update | app/models/sleep_record.rb:4-9 | `save!` of a changed stored record: on success its row is replaced by the saved value, on failure nothing changes |
| SleepRecords.SleepRecordTable.CompleteSleep | app/models/sleep_record.rb:25-29 | `complete_sleep!(t)` succeeds iff `t` is at least one second after `sleep_at`, then stores `wake_up_at = t` and the truncated duration in that row only |
| SleepRecords.SleepRecordTable.DestroyForUser | app/models/user.rb:4 | `has_many :sleep_records, dependent: :destroy`: exactly the user's records are removed |
| Follows.ValidationErrors | app/models/follow.rb:5-6 | "already taken" iff an edge with the same ordered pair is stored; "can't follow yourself" iff follower and followee are equal |
| Follows.ValidEdgeKeepsWellFormed | app/models/follow.rb:5-18 | storing an edge that passes validation keeps the edge set free of self-loops and duplicate pairs |
| Follows.OnlyTheOrderedPairIsUnique | app/models/follow.rb:5 | one followee may have many followers; one follower may follow many followees; `(b, a)` may coexist with `(a, b)`; only the same ordered pair is rejected |
| Follows.NoErrorsWhenNoneApply | app/models/follow.rb:5-18 | an edge between two different users whose pair is not stored has no errors |
| Follows.ForFollower | app/models/follow.rb:9 | `for_follower(u)` keeps exactly the edges whose follower is `u` |
| Follows.ForFollowee | app/models/follow.rb:10 | `for_followee(u)` keeps exactly the edges whose followee is `u` |
| Follows.Recent | app/models/follow.rb:8 | `recent` is a permutation ordered by `created_at` descending |
| Follows.WithoutPair | app/models/user.rb:17-19 | deleting the pair `(a, b)` removes exactly the edges of that pair |
| Follows.NotTouching | app/models/user.rb:7-8 | the two dependent destroys leave exactly the edges in which the user is neither follower nor followee |
| Follows.FilterKeepsWellFormed | app/models/follow.rb:5-18 | deleting any subset of edges keeps the edge set free of self-loops and duplicates |
| Follows.FollowTable.constructor | app/models/follow.rb:1-3 | an empty edge table |
| Follows.FollowTable.Create | app/models/follow.rb:5-18 | storing an edge succeeds iff it has no validation errors, and then appends it; on failure it reports those errors and changes nothing |
| Follows.FollowTable.DeletePair | app/models/user.rb:17-19 | removes exactly the edges of the ordered pair and returns them |
| Follows.FollowTable.DestroyTouching | app/models/user.rb:7-8 | removes exactly the edges touching the user |
| Users.NameErrors | app/models/user.rb:2 | a name is valid iff present, not blank and 2 to 100 characters long; each of the three error kinds is stated as an iff of its own |
| Users.IsFollowingIn | app/models/user.rb:21-23 | `following?(u)` iff `u` is among the user's followees, iff the user is among `u`'s followers |
| Users.FollowEdges | app/models/user.rb:13-15 | `follow(u)` keeps every edge, adds no edge other than `(user, u)`, and grows the edge list by one exactly when `u` is not followed yet and is not the user |
| Users.UnfollowEdges | app/models/user.rb:17-19 | `unfollow(u)` keeps exactly the edges that are not the pair `(user, u)` |
| Users.UnfollowOfStrangerReportsSuccess | app/models/user.rb:17-19 | as written, unfollowing a user who is not followed leaves the edges unchanged and still returns a non-empty collection, which Ruby treats as true |
| Users.FollowKeepsWellFormed | app/models/user.rb:13-15 | `follow` keeps the graph free of self-loops and duplicate edges |
| Users.FollowAddsFollowee | app/models/user.rb:13-15 | `follow(u)` adds `u` to the following set unless `u` is the user (then nothing changes), and afterwards `following?(u)` holds; other users' following sets are unchanged |
| Users.FollowIdempotent | app/models/user.rb:14 | following the same user a second time leaves the edge store unchanged |
| Users.UnfollowRemovesFollowee | app/models/user.rb:17-19 | `unfollow(u)` removes `u` from the following set and nothing else; when the edge is absent the store is unchanged |
| Users.FollowingCountIsFollowees | app/models/user.rb:29-31 | on a well-formed graph, the number of outgoing edges equals the number of distinct followees |
| Users.FollowerCountIsFollowers | app/models/user.rb:25-27 | on a well-formed graph, the number of incoming edges equals the number of distinct followers |
| Users.FollowChangesCount | app/models/user.rb:13-15 | `follow` raises `following_count` by one exactly when it adds an edge, and otherwise leaves it unchanged |
| Users.UnfollowChangesCount | app/models/user.rb:17-19 | `unfollow` lowers `following_count` by one exactly when the edge was present |
| Users.UserTable.constructor | app/models/user.rb:1 | an empty users table |
| Users.UserTable.Create | app/models/user.rb:2 | creating a user succeeds iff the name is valid, with a fresh id; on failure it reports the name errors and changes nothing |
| Users.Follow | app/models/user.rb:13-15 | the edge store becomes the `follow` result; an edge is added iff absent and not a self-follow; afterwards `following?` holds for another user |
| Users.Unfollow | app/models/user.rb:17-19 | corrected `unfollow`: the edge store becomes the `unfollow` result; it reports whether an edge was removed, which is true iff the user was followed before; afterwards `following?` is false |
| Users.PairEdgesIffFollowing | app/models/user.rb:17-19 | the edges `delete` finds for the pair are non-empty iff the user follows the other |
| Users.IsFollowing | app/models/user.rb:21-23 | `following?(u)` over the edge table iff `u` is a followee |
| Users.FollowingCount | app/models/user.rb:29-31 | `following_count` equals the size of the following set |
| Users.FollowerCount | app/models/user.rb:25-27 | `follower_count` equals the size of the followers set |
| Users.Destroy | app/models/user.rb:4-8 | destroying a user removes the user, all of the user's sleep records and every edge touching the user; nothing else changes, and the users and sleep records tables keep their next ids |
| SleepRecordsController.Toggle | app/controllers/api/v1/sleep_records_controller.rb:8-30 | a clock-in appends exactly one in-progress record of the user; a clock-out or a rejected clock-out keeps the number of rows; a clock-out returns a completed record of the user |
| SleepRecordsController.ToggleMatchesAsWritten | app/controllers/api/v1/sleep_records_controller.rb:13-16 | on any table whose in-progress rows are stored in valid form (completed rows may carry the source's duration 0), the corrected and the as-written toggle agree unless the corrected one rejects a clock-out; then the as-written one clocks out exactly when `now` is later than `sleep_at`, and stores duration 0 |
| SleepRecordsController.SubSecondClockOutStoresZeroDuration | app/controllers/api/v1/sleep_records_controller.rb:13-16 | as written, clocking out one microsecond after clocking in stores duration 0; the corrected toggle rejects it as wake-up-not-after-sleep and changes nothing |
| SleepRecordsController.ClockToggle | app/controllers/api/v1/sleep_records_controller.rb:8-30 | `create` on the table: its outcome and new rows are exactly `Toggle` of the old rows; a clock-in consumes a fresh id, and nothing else changes the next id |
| SleepRecordsController.ToggleOutcomes | app/controllers/api/v1/sleep_records_controller.rb:9-28 | with an in-progress record, the toggle clocks out iff `now` is at least one second after `sleep_at`, sets that row's `wake_up_at` and positive duration, and adds no row; a rejected clock-out changes nothing; with none, it appends exactly one record with `sleep_at = now` and no `wake_up_at` |
| SleepRecordsController.ToggleTouchesOnlyUser | app/controllers/api/v1/sleep_records_controller.rb:9-24 | the toggle leaves other users' records unchanged, and any added row belongs to the current user |
| SleepRecordsController.TogglePreservesAtMostOne | app/controllers/api/v1/sleep_records_controller.rb:9-28 | if each user had at most one in-progress record before a toggle, each user has at most one after it |
| SleepRecordsController.ToggleAsWrittenTouchesOnlyUser | app/controllers/api/v1/sleep_records_controller.rb:9-24 | the source's toggle, too, leaves other users' records unchanged, and any added row belongs to the current user |
| SleepRecordsController.ToggleAsWrittenPreservesAtMostOne | app/controllers/api/v1/sleep_records_controller.rb:9-28 | the source's toggle, too, keeps at most one in-progress record per user |
| SleepRecordsController.ToggleAlternates | app/controllers/api/v1/sleep_records_controller.rb:9-28 | a clock-in is followed by a clock-out once a second has passed, and a clock-out is followed by a clock-in |
| SleepRecordsController.Index | app/controllers/api/v1/sleep_records_controller.rb:34 | `index` returns exactly the user's own records, newest `created_at` first |
| SleepRecordsController.LongerOrSameIsTotalPreorder | app/controllers/api/v1/sleep_records_controller.rb:62 | the descending-duration order with NULLs last is total and transitive |
| SleepRecordsController.FetchFriendsSleepRecords | app/controllers/api/v1/sleep_records_controller.rb:55-63 | the feed contains exactly the stored records whose owner is followed, whose `sleep_at` is in `[one_week_ago, now]` and that are completed, each as often as stored, sorted by duration descending |
| SleepRecordsController.FeedLongestFirst | app/controllers/api/v1/sleep_records_controller.rb:62 | feed durations are non-increasing |
| SleepRecordsController.FeedEmptyWhenFollowingNobody | app/controllers/api/v1/sleep_records_controller.rb:41-47 | a user who follows nobody gets an empty feed |
| SleepRecordsController.FriendsSleepRecords | app/controllers/api/v1/sleep_records_controller.rb:39-51 | `friends_sleep_records` over the two tables: a record is in the feed iff its owner is followed, it is completed, and it started in the last week; longest first |
| SleepRecordsController.EightHourNight | app/controllers/api/v1/sleep_records_controller.rb:8-30 | a clock-in at `t0` followed by a clock-out eight hours later leaves one record of 28800 seconds |
| SleepRecordsController.FriendsFeedScenario | spec/requests/api/v1/sleep_records_spec.rb:193-260 | followed user 2 slept 8 h two days ago, 7 h four days ago and 8 h two weeks ago; followed user 3 slept 9 h a day ago; unfollowed user 4 slept 8 h a day ago; the feed is [9 h, 8 h, 7 h] |

## Left out

- Pagination: `paginate_collection` wraps Kaminari's `page`/`per`, whose code is not part of this model. `index` and the feed return the whole list.
- HTTP rendering, status codes, serializers, parameter checks and `rescue_from` are not modelled. Outcomes are return values (`ToggleOutcome`, `Result`).
- The users and follows controllers are not modelled. Their logic is the `User` and `Follow` operations above.
- Concurrency: the clock-in race between two simultaneous requests is not modelled. The model is sequential.
- The wall clock is not modelled: `Time.current` and `1.week.ago` become the parameter `now` and the constant `OneWeek`. The two `Time.current` reads in the feed query are one `now`. In a clock-in, `create!(sleep_at: Time.current)` and the timestamp Rails sets for `created_at` are two reads of the clock; `ClockInRecord` uses one `now` for both.
- Precision: timestamps below one microsecond are not modelled.
- Users.NameErrors: `blank?` is modelled over ASCII whitespace only. Other Unicode space characters are not treated as blank.
- SleepRecords.SleepRecordTable.CompleteSleep: models `complete_sleep!` on a stored record only. On an unsaved record without `sleep_at`, Ruby raises at `wake_up_at - sleep_at` before any save; that path is not modelled.
- Users.Unfollow: ActiveRecord's `following.delete(user)` returns the given users whether or not an edge existed, so the source's `unfollow` is always truthy (see Findings). The method returns whether an edge was removed, the result the follows controller evidently expects.
- SleepRecords.SleepRecordTable.Valid: does not include "at most one in-progress record per user". A direct `create!` can break that rule. The toggle preserves it (`TogglePreservesAtMostOne`).
- SleepRecords.Save: applies the corrected one-second rule. The source's `save!` accepts a completed session longer than 0 and shorter than one second and stores duration 0; `SaveAsWritten` models that.
- SleepRecords.SaveDerivesDuration: is stated about the corrected `Save`, so its bound of at least one second does not hold for the source's `save!`, which can store 0.
- SleepRecords.SleepRecordTable.Valid: its `Persisted` rows follow the corrected rule. Under the source's `save!` a stored completed row can have duration 0.
- SleepRecords.SleepRecordTable.Create: stores through the corrected `Save`, so it rejects a sub-second completed session that the source would store with duration 0.
- SleepRecords.SleepRecordTable.Update: saves through the corrected `Save`, with the same difference as `Create`.
- SleepRecordsController.Toggle: clocks out through the corrected `Save`. The source's toggle clocks out a sub-second session with duration 0 instead of rejecting it; `ToggleAsWritten` models that.
- SleepRecordsController.ClockToggle: is tied to the corrected `Toggle`, with the same difference.
- SleepRecordsController.ToggleOutcomes: its positive duration and its "at least one second" condition hold for the corrected toggle only.
- SleepRecordsController.ToggleAlternates: its "once a second has passed" condition comes from the corrected rule; the source clocks out after any positive delay.
- SleepRecords.ValidationErrorsAsWritten: does not model the `belongs_to :user` "must exist" error. Records always carry a user id, and the users table is not consulted.
- SleepRecords.ValidationErrors: does not model the `belongs_to :user` "must exist" error, for the same reason.
- Follows.ValidationErrors: does not model the two `belongs_to` "must exist" errors for follower and followee. Edges always carry both ids.
- Follows.FollowTable.Create: does not reject an edge whose follower or followee does not exist, for the same reason.
- SleepRecords.CalculateDuration: does not model the 4-byte `duration_in_seconds` column. The source's `save!` raises for a duration above 2^31 - 1 seconds; the model stores any whole number.
- `includes(:user)` / `joins(:user)` in the feed query are not modelled. They only load associations, and every stored record has an owner.
- Database indexes, seeds and migrations are not modelled. The unique `(follower_id, followee_id)` index backs up the validation that is modelled.

## Findings

| source | as written | input that shows it | evidently intended | confidence | as-written member | corrected member |
|---|---|---|---|---|---|---|
| app/models/sleep_record.rb:7-9, 41-45 | `wake_up_after_sleep` runs during validation, before the `before_save` hook computes `duration_in_seconds`. A session shorter than one second passes (`wake_up_at > sleep_at`), and the hook then stores `(wake_up_at - sleep_at).to_i = 0`. That violates the record's own `greater_than: 0` rule, and a later save of the same row fails. | `sleep_at = t`, `wake_up_at = t + 0.5 s`, `duration_in_seconds = nil` | a stored completed record always has a positive whole-second duration; a session shorter than a second is rejected | not executed | SleepRecords.SubSecondSessionStoresZeroDuration | SleepRecords.SubSecondSessionRejected |
| app/controllers/api/v1/sleep_records_controller.rb:13-16, app/models/sleep_record.rb:41-45 | the clock-out saves the in-progress row with `wake_up_at = Time.current`; the same validation order lets a clock-out a fraction of a second after the clock-in store a completed record with duration 0 | an in-progress row with `sleep_at = 0`, clocked out at `now = 1` microsecond | the clock-out is rejected, and the in-progress row stays as it was | not executed | SleepRecordsController.SubSecondClockOutStoresZeroDuration | SleepRecordsController.ToggleOutcomes |
| app/models/user.rb:17-19, app/controllers/api/v1/follows_controller.rb:37-41 | `unfollow` returns the result of `following.delete(user)`, which is the array of given users whether or not an edge existed, so it is always truthy and the 422 branch of `destroy` is never taken | unfollow a user who is not followed | `unfollow` returns false and `destroy` answers 422 "Unable to unfollow user", as spec/requests/api/v1/follows_spec.rb:224-238 expects | not executed | Users.UnfollowOfStrangerReportsSuccess | Users.Unfollow |
