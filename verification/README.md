# Odon core in Dafny

Odon is a mobile app for friend groups. Members share when they are free,
reply to periodic check-ins and join groups with six-character invite
codes. This project models the parts of Odon that compute something, and
proves properties about them:

- **Free-time computation** (`calculateFreeSlots`, `calendar.dfy`). The
  routine walks the days of a date range. On each day it keeps the timed
  events that start that day and sorts them by start. It then sweeps a
  cursor from the start of working hours and reports every gap of at least
  an hour, plus the gap left before working hours end. The routine is an
  imperative method with both loops. It is proved equal to a functional
  specification (`FreeSlots`), and the properties are proved about that
  specification:
  - slots lie in range and last at least an hour;
  - every free hour is reported: a window of at least an hour inside
    working hours that no timed event of the day overlaps lies inside a
    reported slot;
  - each day is handled once, and days come in order;
  - no slot overlaps a timed event of its day;
  - when no event ends before it starts, a day's slots are in order and do
    not overlap each other;
  - all-day events and other days' events are ignored;
  - an empty day gives one slot spanning working hours when they last at
    least an hour.
- **Invite codes** (`generateInviteCode`, `invite.dfy`). Six symbols from a
  32-symbol alphabet without look-alikes. The random draws are a parameter.
- **Snooze rule** (`snoozeCheckIn`, `snooze.dfy`). A member may snooze a
  check-in at most twice.
- **Groups and memberships** (`createGroup`, `getGroupByInviteCode`,
  `joinGroup`, `joinGroupByCode`, `isGroupMember`, `membership.dfy`). The
  backend tables are fields of a `Store` class. Lookups with `.single()` find
  a row only when exactly one row matches.
- **Join screen** (`join_screen.dfy`). Cleaning the typed code, validating
  it once it has six characters, and joining the previewed group.
- **Client state hooks** (`hooks.dfy`):
  - the notification list and its unread counter;
  - the member's availability slots and snoozes for the active check-in;
  - the merge of saved group settings.
- **Slot selection** on the check-in screen (`checkin_screen.dfy`): toggle,
  select all, select none, and the submit-enabled condition.

Shared pieces: `wrappers.dfy` (Option and Result) and `text.dfy` (ASCII
letter classes and upper-casing).

Times are local. A day is an integer index, and a time is a minute count
from that day's midnight. An event's end is counted from the midnight of
its start day, so an event that runs past midnight ends at 1440 or later.

The model follows the code, including these behaviours a reader might not
expect:
- a gap that ends at an event starting after working hours end is not
  clipped (`Calendar.GapPastWorkEndNotClipped`);
- all-day events are dropped from the sweep instead of blocking the day;
- toggling a selected slot id twice restores the selection exactly only
  when that id was last. Otherwise it moves the id to the end, so the
  selection is restored as a collection of ids and not in order
  (`CheckInScreen.ToggleTwice`);
- `markAsRead` lowers the unread counter by one even when that notification
  was already read, so the counter can drift away from the list
  (`Hooks.MarkReadWithoutUnreadDrifts`);
- a lookup that comes back after the user has shortened a complete code
  shows a preview next to the incomplete code
  (`JoinScreen.LateLookupShowsStalePreview`).

## Model

| member | source | states |
|---|---|---|
| Calendar.CalculateFreeSlots | src/lib/calendar.ts:59-115 | The method with both loops returns exactly `FreeSlots(events, startDate, endDate, hours)`. The result is empty when `startDate` is after `endDate`. `FreeSlotsComplete`, `SlotsInRange`, `DaySlotsAvoidEvents` and `FreeSlotsPerDay` prove that this result reports every free hour, and only free time, day by day. |
| Calendar.SweepEvents | src/lib/calendar.ts:84-97 | The inner event loop appends exactly the sweep's gaps to `freeSlots`. It leaves `slotStart` at the sweep's final cursor. |
| Calendar.VisitedDays | src/lib/calendar.ts:67-68 | The loop condition `currentDate <= endDate` holds for day `d` exactly when `d <= LastDay(startDate, endDate)`. |
| Calendar.TimedEventsOnMembers | src/lib/calendar.ts:76-80 | The filter keeps an event iff it is in the input, starts on that day and is not all-day. |
| Calendar.TimedEventsOnAppend | src/lib/calendar.ts:76-80 | Filtering distributes over concatenation. |
| Calendar.InsertByStartPermutes | src/lib/calendar.ts:81 | Inserting adds exactly the one event to the multiset. The new head is the event or the old head. |
| Calendar.InsertByStartBound | src/lib/calendar.ts:81 | A lower bound on all starts survives insertion. |
| Calendar.InsertByStartSorted | src/lib/calendar.ts:81 | Insertion into a start-sorted list keeps it sorted. |
| Calendar.SortByStartSorted | src/lib/calendar.ts:81 | The sort returns a start-sorted permutation of its input. |
| Calendar.DayEventsMembers | src/lib/calendar.ts:76-81 | A day's considered events are sorted by start. They are exactly the input's timed events starting that day. |
| Calendar.SweepCursorBounds | src/lib/calendar.ts:84-96 | The cursor never falls below working-hours start. It ends at or after every event's end, so busy time is never reopened. |
| Calendar.SweepCursorReached | src/lib/calendar.ts:96 | The final cursor is working-hours start or the end of one of the events, so it is the latest of these. |
| Calendar.SweepGapBounds | src/lib/calendar.ts:86-93 | Every gap is dated that day, starts no earlier than working-hours start and lasts at least 60 minutes. |
| Calendar.SweepGapEndsAtEvent | src/lib/calendar.ts:86-93 | Every gap ends exactly where one of the events starts. |
| Calendar.SweepGapsBeforeCursor | src/lib/calendar.ts:84-97 | With well-formed events, every gap ends no later than the final cursor. |
| Calendar.SweepGapsOrdered | src/lib/calendar.ts:84-97 | With well-formed events, the gaps are in increasing order and pairwise non-overlapping. |
| Calendar.SweepGapsAvoidEvents | src/lib/calendar.ts:81-97 | When the events are sorted by start, no gap overlaps any event. |
| Calendar.SlotsForDaysStep | src/lib/calendar.ts:67-111 | One more loop iteration appends that day's slots to the output. |
| Calendar.DaySlotsSplit | src/lib/calendar.ts:84-109 | A day's slots are the sweep's gaps followed by the trailing slot. |
| Calendar.SlotsInRange | src/lib/calendar.ts:59-115 | Every reported slot is dated between `startDate` and the last visited day. It starts no earlier than working-hours start and lasts at least 60 minutes. |
| Calendar.DayOfSlot | src/lib/calendar.ts:67-111 | Each slot of a day range is among the slots of some visited day of that range. |
| Calendar.DaySlotsBounds | src/lib/calendar.ts:69-109 | A day's slots are dated that day, start no earlier than working-hours start and last at least 60 minutes. |
| Calendar.DaySlotsEnds | src/lib/calendar.ts:92-106 | Each slot of a day ends at working-hours end or at the start of one of that day's timed events. |
| Calendar.BusyUntilIsLatestEnd | src/lib/calendar.ts:96 | The cursor after the sweep is at least working-hours start and at least every considered event's end. It equals one of them. |
| Calendar.TrailingSlotEndsAtWorkEnd | src/lib/calendar.ts:100-109 | When at least 60 minutes remain after the busy time, the last slot runs from the cursor to exactly working-hours end. Otherwise the day's slots are just the sweep's gaps. |
| Calendar.DayEventsWellFormed | src/lib/calendar.ts:76-81 | Filtering and sorting keep events well formed (end not before start). |
| Calendar.DaySlotsOrdered | src/lib/calendar.ts:81-109 | With well-formed events, a day's slots are in increasing order and do not overlap. |
| Calendar.DaySlotsAvoidEvents | src/lib/calendar.ts:76-109 | No slot of a day overlaps any timed event starting that day. |
| Calendar.SweepCoversFreeWindow | src/lib/calendar.ts:84-97 | A window of at least an hour, starting no earlier than working-hours start and overlapped by none of the events, lies inside one of the sweep's gaps, or the cursor ends no later than its start. |
| Calendar.DaySlotsCoverFreeWindow | src/lib/calendar.ts:69-109 | Every window of at least an hour inside working hours that no timed event of the day overlaps lies inside one of that day's slots. |
| Calendar.SlotsForDaysIncludesDay | src/lib/calendar.ts:67-111 | The slots of every visited day appear in the range's output. |
| Calendar.FreeSlotsComplete | src/lib/calendar.ts:59-115 | On every visited day, a window of at least an hour inside working hours that no timed event of that day overlaps lies inside a reported slot dated that day. |
| Calendar.EmptyDay | src/lib/calendar.ts:100-109 | A day without timed events gives exactly `[workStart, workEnd)` when that is at least an hour, and nothing otherwise. |
| Calendar.EmptyDayDefaultHours | src/lib/calendar.ts:63-109 | With the default hours, an event-free day gives the single slot 09:00–21:00. |
| Calendar.IgnoredEvent | src/lib/calendar.ts:76-80 | Inserting an all-day event, or one starting on another day, anywhere in the input changes nothing about the day's slots. |
| Calendar.EachDayOnce | src/lib/calendar.ts:67-111 | The slots dated `d` are exactly day `d`'s slots when `d` is in the visited range, and none otherwise: each day is handled once. |
| Calendar.SlotDatesInRange | src/lib/calendar.ts:67-111 | Every slot is dated inside the visited range. |
| Calendar.DaysInOrder | src/lib/calendar.ts:67-111 | The output is grouped by day in date order. |
| Calendar.FreeSlotsPerDay | src/lib/calendar.ts:59-115 | For each day, the whole result's slots of that day are exactly that day's slots (or none outside the range). The result is in date order. |
| Calendar.GapPastWorkEndNotClipped | src/lib/calendar.ts:86-93 | One event at 22:00–23:00 with default hours yields the slot 09:00–22:00, which ends after working-hours end. |
| InviteCode.GenerateInviteCode | src/lib/api.ts:8-15 | The generated code has 6 characters, each in the alphabet and in A–Z/0–9. It equals `Encode(draws)`, and decoding it gives back the draws. |
| InviteCode.AlphabetSpelled | src/lib/api.ts:9 | The alphabet has 32 symbols, and symbol `i` is the computed `SymbolAt(i)`. |
| InviteCode.SymbolFacts | src/lib/api.ts:9-12 | Each drawn symbol is in the alphabet, is an upper-case letter or digit, is none of I, O, 0, 1, and maps back to its index. |
| InviteCode.AlphabetDistinctNoLookAlikes | src/lib/api.ts:9 | The 32 symbols are pairwise distinct and exclude I, O, 0 and 1. |
| InviteCode.Encode | src/lib/api.ts:10-14 | The code has one character per draw. |
| InviteCode.DecodeEncode | src/lib/api.ts:10-14 | Decoding an encoded code gives back the draws. |
| InviteCode.EncodeInjective | src/lib/api.ts:10-14 | Different draws give different codes. |
| InviteCode.EncodedSymbols | src/lib/api.ts:9-12 | Every character of an encoded code is in the alphabet and in A–Z/0–9. |
| Snooze.CurrentCount | src/lib/api.ts:318 | A missing record reads as 0; otherwise the stored count is used. |
| Snooze.SnoozeDecisionCases | src/lib/api.ts:307-336 | A snooze succeeds iff the user is signed in and the count is below 2. A refusal reports `canSnoozeAgain = false` and leaves the stored count. A success stores the count plus one. |
| Snooze.CanSnoozeAgainForecast | src/lib/api.ts:335 | After a success, `canSnoozeAgain` is true exactly when the next signed-in snooze succeeds. |
| Snooze.SuccessesBound | src/lib/api.ts:318-335 | From count `c`, `n` snoozes in a row succeed `min(n, 2 - c)` times (0 when `c >= 2`), never more than twice. |
| Snooze.TwoSnoozesFromScratch | src/lib/api.ts:318-335 | With no record, at least two requests give exactly two successes. |
| Text.UpperChar | src/lib/api.ts:106 | The result is never a lower-case letter. A lower-case letter becomes an upper-case letter. Letters and digits stay letters and digits, and other characters stay other characters. `A`–`Z` and `0`–`9` are unchanged. |
| Text.UpperCharCaseInsensitive | src/lib/api.ts:106 | A lower-case letter and its upper-case letter map to the same character. |
| Text.ToUpper | src/lib/api.ts:160 | Upper-casing keeps the length, leaves no lower-case letter, and keeps letters and digits in the same positions. |
| Text.ToUpperIdempotent | src/lib/api.ts:160 | Upper-casing twice equals upper-casing once. |
| Text.UpperCodeCharsUnchanged | src/lib/api.ts:160 | A string of A–Z and 0–9 is its own upper-case form. |
| Membership.WithCodeMembers | src/lib/api.ts:102-107 | The code filter keeps exactly the groups with that invite code. |
| Membership.RowsForAppend | src/lib/api.ts:174-178 | Appending a row raises the pair's row count by one exactly when the row is for that pair. |
| Membership.RowsForPositive | src/lib/api.ts:165-172 | A pair has a positive row count iff a row for it exists. |
| Membership.UniqueAtMostOne | src/lib/api.ts:165-172 | Unique rows give each pair at most one row. |
| Membership.AppendKeepsUnique | src/lib/api.ts:174-178 | Adding a row for a pair that has none keeps the rows unique. |
| Membership.DisplayedCount | src/lib/api.ts:113 | The shown member count is at least 1, and it equals the real count when that is positive. |
| Membership.GroupByInviteCode | src/lib/api.ts:102-115 | A preview exists iff exactly one group has the upper-cased code. That group is returned with its number of member rows as the count, or 1 when it has none. |
| Membership.SharedCodeNotFound | src/lib/api.ts:102-109 | Two groups sharing a code cannot be found by it. |
| Membership.IsGroupMemberIffRow | src/lib/api.ts:183-192 | On unique rows, `isGroupMember` holds iff a row for the pair exists. |
| Membership.Store.CreateGroup | src/lib/api.ts:117-141 | A failed group insert is an error that changes nothing. Otherwise a group with the next id and the code `Encode(draws)` is added, with the creator as `admin` unless that insert fails. Consistency is preserved. |
| Membership.Store.JoinGroup | src/lib/api.ts:143-151 | Adds one `member` row exactly when the insert succeeds, and reports that. Consistency is preserved for a new pair. |
| Membership.Store.JoinGroupByCode | src/lib/api.ts:153-181 | Not signed in gives `null`. No single group with the upper-cased code is an invalid code. Exactly one existing row for the user is "already a member" (`.single()` sees no row when there are several). Otherwise exactly one `member` row is added (unless the insert fails) and the group is returned. Consistency is preserved. |
| Membership.GeneratedCodeLookedUpAsIs | src/lib/api.ts:8-15 | A generated code is already upper case. |
| Membership.OnlyGroupFoundByCode | src/lib/api.ts:102-115 | In a store with one group and no member rows, the group is found by any input that upper-cases to its code, with member count 1. |
| JoinScreen.CleanCode | src/screens/JoinGroupScreen.tsx:79-83 | The cleaned code has at most 6 characters, each in A–Z or 0–9. |
| JoinScreen.KeepAlphanumericFacts | src/screens/JoinGroupScreen.tsx:81 | The filter never lengthens its input and keeps only letters and digits. |
| JoinScreen.KeepAlphanumericAppend | src/screens/JoinGroupScreen.tsx:81 | The filter distributes over concatenation, so order is kept. |
| JoinScreen.KeepAlphanumericAll | src/screens/JoinGroupScreen.tsx:81 | A string of letters and digits passes unchanged. |
| JoinScreen.KeepAlphanumericUpper | src/screens/JoinGroupScreen.tsx:81 | Filtering and upper-casing commute. |
| JoinScreen.ToUpperAppend | src/screens/JoinGroupScreen.tsx:81 | Upper-casing distributes over concatenation. |
| JoinScreen.CleanCodeFixedPoint | src/screens/JoinGroupScreen.tsx:81 | A clean code of at most six characters is unchanged by cleaning. |
| JoinScreen.CleanCodeIdempotent | src/screens/JoinGroupScreen.tsx:81 | Cleaning twice equals cleaning once. |
| JoinScreen.CleanCodePrefix | src/screens/JoinGroupScreen.tsx:81 | Typing more never changes the characters already accepted: the old clean code is a prefix of the new one. |
| JoinScreen.CleanCodeCaseInsensitive | src/screens/JoinGroupScreen.tsx:81 | Upper-casing the input first gives the same clean code. |
| JoinScreen.GeneratedCodeIsClean | src/screens/JoinGroupScreen.tsx:81 | A generated invite code survives cleaning unchanged. |
| JoinScreen.ValidationTrigger | src/screens/JoinGroupScreen.tsx:23-48 | A length other than 6 clears preview and error. At length 6 a found group is shown with no error; a miss or a failed lookup sets an error and keeps the old preview. |
| JoinScreen.TypedCodeShowsOnlyGroup | src/screens/JoinGroupScreen.tsx:23-48 | With a store holding only that group, typing its code in any case and with separators shows the group's preview. |
| JoinScreen.LateLookupShowsStalePreview | src/screens/JoinGroupScreen.tsx:23-48 | Shortening a complete code clears the preview. A lookup for the complete code that comes back afterwards shows its group anyway, next to the shorter code. |
| JoinScreen.HandleJoin | src/screens/JoinGroupScreen.tsx:50-77 | No preview or no user is a no-op. A current member is forwarded without a new row. Otherwise one `member` row is added and the group is passed on, or the join error is shown and nothing changes. Consistency is preserved. |
| Hooks.MarkRead | src/lib/hooks.ts:213-215 | Marking read keeps the list length. |
| Hooks.AllRead | src/lib/hooks.ts:221 | Marking all read keeps the list length. |
| Hooks.MarkReadEffect | src/lib/hooks.ts:213-215 | Notifications with the id become read and keep every other field. All others are unchanged. |
| Hooks.MarkReadCount | src/lib/hooks.ts:213-215 | The number unread drops by exactly the number of unread notifications with that id. |
| Hooks.MarkReadIdempotent | src/lib/hooks.ts:213-215 | Marking the same id twice equals marking it once. |
| Hooks.AllReadCount | src/lib/hooks.ts:221 | Afterwards nothing is unread, and every notification is the original one with `read` set. |
| Hooks.NotificationFeed.constructor | src/lib/hooks.ts:189-190 | The feed starts empty with the counter at 0. |
| Hooks.NotificationFeed.Loaded | src/lib/hooks.ts:195-200 | The fetched list and the fetched count are stored as they are. |
| Hooks.NotificationFeed.Receive | src/lib/hooks.ts:203-206 | A pushed notification is prepended and the counter rises by exactly 1. An unread arrival keeps a matching counter matching. |
| Hooks.NotificationFeed.MarkAsRead | src/lib/hooks.ts:211-217 | The list becomes `MarkRead(old, id)` and the counter drops by 1, never below 0. The counter stays matching when exactly one unread notification had the id. |
| Hooks.NotificationFeed.MarkAllAsRead | src/lib/hooks.ts:219-223 | Every notification is read, the counter is 0, and the counter matches the list. |
| Hooks.MarkReadWithoutUnreadDrifts | src/lib/hooks.ts:211-217 | For any list, marking an id with no unread notification leaves the unread number unchanged. So a matching counter that `markAsRead` lowers by one no longer matches. |
| Hooks.MarkingReadAgainDrifts | src/lib/hooks.ts:211-217 | Marking an already-read notification leaves the unread number unchanged, while `markAsRead` still lowers the counter. |
| Hooks.Submitted | src/lib/hooks.ts:256 | The kept slots are as many as the submitted ones. |
| Hooks.SubmittedRoundTrip | src/lib/hooks.ts:256 | The kept slots carry the submitted times in order, are numbered by index and are confirmed. |
| Hooks.ConfirmedAll | src/lib/hooks.ts:262 | Confirming keeps the number of slots. |
| Hooks.ConfirmedAllEffect | src/lib/hooks.ts:262 | Times and ids are kept, every slot is confirmed, and a second confirmation changes nothing. |
| Hooks.ConfirmAfterSubmit | src/lib/hooks.ts:256-262 | Freshly submitted slots are already confirmed. |
| Hooks.CheckInHook.constructor | src/lib/hooks.ts:233-250 | The hook holds the loaded check-in, slots and stored snooze count. |
| Hooks.CheckInHook.SubmitAvailability | src/lib/hooks.ts:253-257 | Without an active check-in nothing changes. Otherwise the slots become `Submitted(slots)`. |
| Hooks.CheckInHook.ConfirmAll | src/lib/hooks.ts:259-263 | Without an active check-in nothing changes. Otherwise every slot is confirmed. |
| Hooks.CheckInHook.DoSnooze | src/lib/hooks.ts:265-268 | Without an active check-in the result is `{false, false}` and nothing is stored. Otherwise the snooze rule decides the outcome and the stored count. |
| Hooks.Overlay | src/lib/hooks.ts:158 | The merged record has the union of keys. Updated fields win, and every other field is kept. |
| Hooks.OverlayIdempotent | src/lib/hooks.ts:158 | Applying the same update twice equals applying it once. |
| Hooks.GroupHook.constructor | src/lib/hooks.ts:137-152 | The hook holds the group id and the loaded group. |
| Hooks.GroupHook.UpdateSettings | src/lib/hooks.ts:154-161 | Without a group id, returns null and changes nothing. Otherwise returns the saved record, and merges it into the loaded group when both exist. |
| CheckInScreen.WithoutEffect | src/screens/CheckInScreen.tsx:71 | The filter removes every occurrence of the id and keeps exactly the other ids, with their multiplicities. |
| CheckInScreen.WithoutAbsent | src/screens/CheckInScreen.tsx:71 | Filtering out an absent id changes nothing. |
| CheckInScreen.WithoutLast | src/screens/CheckInScreen.tsx:71-72 | Removing an id just appended gives back the list before it. |
| CheckInScreen.WithoutAppend | src/screens/CheckInScreen.tsx:71 | The filter distributes over concatenation. |
| CheckInScreen.WithoutKeepsNoDuplicates | src/screens/CheckInScreen.tsx:71 | Filtering keeps a duplicate-free list duplicate-free. |
| CheckInScreen.WithoutSingle | src/screens/CheckInScreen.tsx:71 | In a duplicate-free list, removing the id at position `i` cuts out just that position. |
| CheckInScreen.ToggledEffect | src/screens/CheckInScreen.tsx:68-74 | An unselected id is appended at the end. A selected id is removed entirely, and all other ids keep their membership. |
| CheckInScreen.ToggledKeepsNoDuplicates | src/screens/CheckInScreen.tsx:68-74 | A toggle never introduces a duplicate. |
| CheckInScreen.MoveToEnd | src/screens/CheckInScreen.tsx:71-72 | Moving one element to the end keeps the multiset. |
| CheckInScreen.ToggleTwicePresent | src/screens/CheckInScreen.tsx:68-74 | Toggling a selected id off and on again moves it to the end. |
| CheckInScreen.ToggleTwice | src/screens/CheckInScreen.tsx:68-74 | On a duplicate-free selection, two toggles restore the multiset of ids. They restore the exact list when the id was absent or last. |
| CheckInScreen.ToggleOnEnablesSubmit | src/screens/CheckInScreen.tsx:68-74 | Selecting a new slot makes the selection non-empty and contain it. |
| CheckInScreen.SlotPicker.constructor | src/screens/CheckInScreen.tsx:14-17 | The picker starts with the offered ids and an empty selection. |
| CheckInScreen.SlotPicker.ToggleSlot | src/screens/CheckInScreen.tsx:68-74 | The selection becomes `Toggled(old selection, id)`. |
| CheckInScreen.SlotPicker.SelectAll | src/screens/CheckInScreen.tsx:76-78 | The selection becomes exactly the offered ids, in display order. |
| CheckInScreen.SlotPicker.SelectNone | src/screens/CheckInScreen.tsx:80-82 | The selection becomes empty, and submit is disabled. |

## Left out

- Date and time formatting is not modelled: `toISOString`, `toDateString`, `toTimeString().slice(0, 5)` and the UTC-versus-local mismatch in the date string. Slots carry a day index and minute numbers.
- Daylight-saving changes are not modelled. Every day has 1440 minutes.
- Times of 1440 or later (an event ending after midnight) are not wrapped into `HH:MM`.
- `Text.ToUpper` maps ASCII letters only. JavaScript's `toUpperCase` also maps other characters, some of them to ASCII ('ſ' to 'S', 'ı' to 'I') and some to two characters ('ß' to 'SS'). Codes that do not pass the screen's cleaning reach it: a deep-link code and `useGroups.joinGroup`. Such input can match an ASCII invite code in the app but never in the model.
- Lengths are counted in characters. JavaScript's `code.length` counts UTF-16 units, so a character outside the Basic Multilingual Plane counts twice there.
- Backend reads and writes (the hosted database, authentication, realtime subscriptions) are not modelled. Their results are parameters: the random draws, whether an insert fails, whether the user is signed in, the fetched lists and counts, and the saved group record.
- The `snoozed_until` timestamp and `Date.now` are left out. Only the snooze count is modelled.
- Snooze.SuccessesBound: assumes the upsert in `snoozeCheckIn` overwrites the one record keyed by check-in and user, so the next read sees the new count. If the table's key were a separate id, each upsert would add a row, `.single()` would find no single row, the count would read as 0 and snoozes would be unlimited. The table's key is not part of this model.
- Times are whole minutes. The source compares dates to the millisecond in the day loop (src/lib/calendar.ts:67) and keeps fractional gap lengths (src/lib/calendar.ts:87, 101). For a start at Monday 10:23:45 and an end at Wednesday 10:23:00 the source visits Monday and Tuesday, while the model, at minute precision, also visits Wednesday. A 59.5-minute gap, which the source drops, cannot be expressed.
- `Membership.Store.CreateGroup`: the group description field and the backend-chosen id format are not modelled. Ids are table positions.
- JoinScreen.ValidationTrigger: states each code change together with its own lookup, as if the lookup came back before the next change. `validateCode` does not cancel a pending lookup. `LateLookupShowsStalePreview` covers a lookup that comes back after the code was shortened. Two lookups for two complete codes coming back out of order are not stated.
- The `catch` branches for thrown network errors in `handleJoin` are not modelled. In `validateCode` the thrown error is the `LookupFailed` case.
- The `isLoading`/`isValidating` flags and navigation after a join are not modelled.
- Notifications' `data` and `created_at` fields are not modelled.
- `Hooks.NotificationFeed.MarkAsRead`: the backend call that marks the notification read is not modelled. Only the client state is.
- The LLM features, the OAuth calendar import, the routing and all screens other than the join and check-in screens are not modelled. The cross-member matching and "AI pick" ranking are fixed display data in the app, not logic.
- The inner event loop of `calculateFreeSlots` is its own method (`Calendar.SweepEvents`), called from the outer day loop.
