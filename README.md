# talaba-bot duty engine in Dafny

This project models the duty-rotation and skip engine of talaba-bot, a Telegram bot that assigns one
room per floor of a dormitory (floors 2 to 9) to clean each day. It covers:

- the daily generation of the duty schedule (`generate_duty_schedule`);
- the `/skip` command, which defers a room's duty by queueing it and handing today's duty to the next
  room of the floor;
- the table operations both rely on (the FIFO duty queue, confirmation, the attendance upsert, the
  penalty end date, room seeding);
- the small arithmetic of the bot: the general-cleaning room test and the report percentage.

The modules follow the program's files:

- `Common`: `Option`.
- `Calendar`: `datetime.date` validity and `tm_yday` (day of year). Today's date is a parameter of
  every operation that reads the clock.
- `Text`: Python's `str(n)`, `int(s)`, `str.split` and `str.join` on the strings the handlers parse.
- `Database` (database.py): the record datatypes, and the pure table operations (floor filter,
  queue peek and delete-one, update-where, upsert, end date, circular successor). The class `Store`
  holds one field per table, and its methods are the functions of database.py that change a table.
  `Store.Valid()` is the invariant every method keeps:
  - rooms are ordered by number;
  - at most one duty record per (date, floor);
  - queue ids ascend and lie below the next autoincrement id;
  - at most one attendance record per (date, floor).
- `Scheduler` (scheduler.py): the generation loop. `Choose` is the branch taken for one floor, and
  `Generate` the run over floors 2..9. The method `GenerateDutySchedule` is proved against
  `Generate`; lemmas then say what a run means. `GenerateLocked` is the same run with SQLite's write
  lock, which stops it at a floor served from the queue once it has inserted (see Findings below).
  The module also holds the report split and its percentage.
- `Bot` (bot.py): the `/skip` and `/tasdiqlash` (confirm) handlers as methods on a `Store`, their
  argument checks as functions, and the bot's own percentage and general-cleaning test.

`generate_duty_schedule` is written twice in the source with the same logic (bot.py:38-82 and
scheduler.py:12-59). It is modelled once, and the table cites both.

Four behaviours of the code are easy to misread; the model follows the code in each:

- **A floor with no rooms.** Its duty sequence is empty and `% len(duty_sequence)` raises
  ZeroDivisionError. The whole run stops:
  - the inserts not yet committed on the run's connection are lost;
  - the queue deletions of the floors already served stay, because `clear_duty_queue` commits on its
    own connection.

  The run aborts instead of skipping the floor. (`GenerateDutySchedule`, `GenerateFailsIff`)
- **The penalty end date.** It is `date(year, month, day + days)`, which raises ValueError when the
  day leaves the month: the end date does not roll over into the next month. (`PenaltyEndDate`)
- **The floors generated.** They are always 2..9 (`range(2, 10)`), not every floor registered.
- **Supervisor floors.** They are compared as the raw pieces of `floors.split(',')`. A supervisor
  whose floors were typed as `"2, 3"` is refused floor 3. (`SpacedFloorsRefused`)

## Model

| member | source | states |
|---|---|---|
| Bot.GeneralCleaningIsPerFloor | bot.py:32-35 | the general-cleaning test (last two digits 1, 6, 7 or 12) depends only on the room's position on its floor: moving a number by whole floors does not change it |
| Bot.SeededGeneralCleaningRooms | bot.py:32-35 | on every seeded floor the general-cleaning rooms are exactly rooms 1, 6, 7 and 12 of the floor |
| Bot.IsGeneralCleaningRoom | bot.py:32-35 | a general-cleaning room is among the first twelve of its floor (last two digits 1..12); which rooms exactly is stated by `GeneralCleaningIsPerFloor` and `SeededGeneralCleaningRooms` |
| Scheduler.GenerateDutySchedule | scheduler.py:12-59 | the loop over floors 2..9 does what the run `Generate` describes: on success the schedule becomes the staged rows, and the method returns true; when a floor has an empty duty sequence it returns false, the schedule is unchanged, and the queue keeps the pops made for the earlier floors; rooms, attendance, penalties and supervisors are untouched; the store invariant holds; bot.py:38-82 repeats the same loop line for line |
| Scheduler.Choose | scheduler.py:18-50 | a room taken from the queue comes from an entry of the floor being generated; which branch is taken is stated by `ChooseMeaning`, and which room the rotation picks by `ChooseRotationRoom` |
| Scheduler.Generate | scheduler.py:18-56 | a run from a floor stops, if it stops, at a floor between that floor and 9; when and where is stated by `GenerateFailsAt` and `GenerateFailsIff`, what it leaves by `GenerateStages` and `GenerateCovers` |
| Scheduler.GenerateLocked | scheduler.py:16-59 | the run as written under SQLite's write lock: once the run's connection has inserted a row, a floor served from the queue stops the run there, as `clear_duty_queue` cannot delete on its own connection; the stop is at a floor between the starting floor and 9 |
| Scheduler.LockedRunStopsAtSkippedFloor | scheduler.py:28-59 | when floor 2 takes its rotation room and floor 3 has a queued skip, the run as written stops at floor 3 with the queue untouched, while the run without the lock gets past floor 3 |
| Scheduler.LockedRunExample | scheduler.py:28-50 | one skipped room on floor 3 and a room on floor 2 are tables that meet the conditions of `LockedRunStopsAtSkippedFloor` |
| Scheduler.ServeFloor | scheduler.py:20-56 | one floor: an existing (today, floor) record means no pop and no insert; otherwise the oldest queued entry is removed and its room inserted, or else the rotation room is inserted; an empty duty sequence reports failure; the staged rows keep one record per (date, floor) |
| Scheduler.BuildDutySequence | scheduler.py:41-44 | the `extend` loop builds the duty sequence: each room number repeated `duty_days` times, in room order |
| Scheduler.Repeat | scheduler.py:43-44 | `[room] * duty_days` has `duty_days` copies (none when it is zero or less) |
| Scheduler.RepeatAll | scheduler.py:43-44 | every copy in `[room] * duty_days` is the room |
| Scheduler.DutySequence | scheduler.py:41-44 | the duty sequence has one slot per duty day of every room |
| Scheduler.SlotInDutySequence | scheduler.py:41-50 | locating slot `duty_index` room by room, without building the list, gives the same room as indexing the built duty sequence |
| Scheduler.DutySequenceMembers | scheduler.py:41-44 | a number is in the duty sequence iff it is the number of a room with at least one duty day |
| Scheduler.DutySequenceAscending | scheduler.py:36-44 | over rooms ordered by number (`ORDER BY number`) the duty sequence is ascending |
| Scheduler.DutySequenceUnitDays | scheduler.py:41-44 | with one duty day per room the duty sequence is the list of room numbers |
| Scheduler.RotationIndex | scheduler.py:46-49 | `(day_of_year + (floor - 2) * 3) % len` is a valid index into the duty sequence |
| Scheduler.RotationNextDay | scheduler.py:46-50 | one day later the rotation moves one slot on, wrapping after the last slot |
| Scheduler.RotationNextFloor | scheduler.py:47-49 | on the same day the floor above is three slots further on |
| Scheduler.RotationAdvancesDaily | scheduler.py:46-50 | from one calendar day to the next in the same year, every floor's rotation moves one slot; from 31 December it restarts from day 1 |
| Scheduler.ChooseMeaning | scheduler.py:20-50 | for one floor: an existing record for today wins; else, iff the floor has queue entries, the oldest (lowest id) entry is served; else the room is one of the floor's rooms with duty days, the slot `ChooseRotationRoom` states; the floor fails exactly when it has no record, no queue entry and no duty days |
| Scheduler.ChooseRotationRoom | scheduler.py:34-50 | the rotation room is slot `(day_of_year + (floor - 2) * 3) % len` of the floor's duty sequence (its rooms by number, each repeated `duty_days` times), which is non-empty on that branch |
| Scheduler.SkippedRoomWaitsItsTurn | scheduler.py:28-31 | a newly queued room is served next when its floor has no older entries, and otherwise does not change what the floor is served |
| Scheduler.SkipsServedInOrder | scheduler.py:28-31 | two skips on a floor with an empty queue are served in skip order: the first by today's run, the second by the next run |
| Scheduler.FirstEmptyFloorFound | scheduler.py:18-50 | the first empty floor found from a starting floor is one whose duty sequence is empty with no record and no queued room, and every floor before it has a room |
| Scheduler.FirstEmptyFloorNone | scheduler.py:18-50 | no empty floor is found iff every floor from the start to 9 has a record, a queued room or a duty slot |
| Scheduler.GenerateFailsAt | scheduler.py:18-50 | the run stops exactly at the first floor from which it started that has neither a record, nor a queued room, nor a duty slot |
| Scheduler.GenerateFailsIff | scheduler.py:18-50 | the run fails iff some floor 2..9 has no record for today, no queue entry and no duty days |
| Scheduler.GenerateStages | scheduler.py:18-56 | a run that does not fail keeps the existing schedule and appends the planned rows after it |
| Scheduler.StepQueueEntries | scheduler.py:28-31 | serving one floor from the queue drops exactly the head of that floor's entries, which is non-empty; every other floor's entries, and that floor's when it is not served from the queue, are unchanged |
| Scheduler.GenerateQueueServed | scheduler.py:28-31 | after a run, each floor whose room came from the queue (and which the run reached) had an entry and has lost exactly its oldest entry, also when the run fails on a later floor |
| Scheduler.GenerateQueueUntouched | scheduler.py:28-31 | after a run, the entries of a floor that was not served from the queue, or that the run did not reach, are unchanged |
| Scheduler.PlannedRows | scheduler.py:53-56 | every inserted row is a pending, unconfirmed row for today, for a floor that had no record, holding the chosen room |
| Scheduler.PlannedAscending | scheduler.py:18-56 | the inserted rows are in ascending floor order, so there is at most one per floor |
| Scheduler.PlannedCovers | scheduler.py:18-56 | every floor without a record whose choice names a room gets an inserted row |
| Scheduler.GenerateCovers | scheduler.py:18-56 | after a successful run every floor 2..9 has exactly one record for today; the new ones are pending; the schedule still has one record per (date, floor) |
| Scheduler.GenerateAllExisting | scheduler.py:20-25 | when every floor already has a record for today the run changes neither the schedule nor the queue |
| Scheduler.GenerateIdempotent | scheduler.py:18-56 | a second run on the same day, on the tables the first left, inserts nothing and pops nothing |
| Scheduler.AppendKeepsOnePerDay | scheduler.py:53-56 | inserting a row for a (date, floor) that has none keeps one record per (date, floor) |
| Scheduler.SeededDutySequence | scheduler.py:36-44 | on the seeded rooms each floor's duty sequence has 12 slots, slot i being room floor*100+i+1 |
| Scheduler.SeededRotation | scheduler.py:46-50 | on the seeded rooms, with no record and no queue entry, floor f cleans room f*100+1+((day_of_year + (f-2)*3) mod 12) |
| Scheduler.SeededRotationExample | scheduler.py:46-50 | on 9 April 2024 (day 100) floor 2 cleans room 205 and floor 3 cleans room 308 |
| Scheduler.SeededRotationYearEnd | scheduler.py:46-50 | on 31 December 2023 (day 365) floor 9 cleans room 903 |
| Scheduler.SeededRotationNewYear | scheduler.py:46-50 | on 1 January 2025 (day 1) floor 5 cleans room 511 |
| Scheduler.CompletedDuties | scheduler.py:110 | a duty is in the completed list iff it is one of the duties and its status is completed |
| Scheduler.PendingDuties | scheduler.py:111 | a duty is in the pending list iff it is one of the duties and its status is pending |
| Scheduler.ReportPartition | scheduler.py:110-111 | completed and pending split the duties: their lengths add up to the number of duties, and each duty is in exactly one list |
| Scheduler.ReportPercent | scheduler.py:125-126 | the percentage lies in 0..100; it is 100 iff there are duties and all are completed; it is 0 when none is completed (also with no duties) |
| Scheduler.PercentBounds | scheduler.py:126 | `done * 100 // total` lies in 0..100 and is 100 only when all are done |
| Bot.AdminPercent | bot.py:254-255 | with `total = len(duties) or 1` the bot's percentage lies in 0..100 |
| Bot.AdminPercentAgrees | bot.py:254-255 | the bot's percentage equals the scheduled report's percentage for every list of duties, the empty one included |
| Bot.ConfirmArgument | bot.py:162-171 | no argument, an argument `int()` rejects, or a room number read by `int()` from the first argument |
| Bot.ConfirmArgumentRoundTrip | bot.py:171 | a room number written in decimal is confirmed as that number |
| Bot.Caller | bot.py:394 | the recorded caller `"{user.id}:{user.first_name}"` gives back the Telegram id as the text before its first colon |
| Bot.ConfirmCommand | bot.py:160-183 | the handler's outcome is the argument check's; only on a room number does the schedule become the confirmation of that room for today, by the caller written "id:first_name"; every other table is unchanged |
| Bot.SkipReason | bot.py:378 | the default text when no words follow the room number; what the joined reason holds is stated by `SkipReasonKeepsWords` |
| Bot.SkipReasonKeepsWords | bot.py:378 | the reason keeps the words the supervisor typed after the room number: split on spaces it gives back exactly those arguments |
| Bot.CheckSkip | bot.py:356-388 | the caller is refused exactly when their Telegram id has no supervisor row; the skip passes exactly when a supervisor is found, an argument is given, `int()` accepts it, and `str(room // 100)` is one of the comma-separated floors; a passing skip carries that room, its floor `room // 100` and the reason |
| Bot.Reassign | bot.py:400-403 | `UPDATE ... SET room_number WHERE date AND floor`: rows of that (date, floor) get the new room; dates, floors, statuses and confirmation fields of all rows, and every other row, are unchanged |
| Bot.ReassignKeepsOnePerDay | bot.py:400-403 | the update keeps one record per (date, floor) and the set of (date, floor) pairs that have one |
| Bot.ReassignLastWins | bot.py:400-403 | a second update of the same (date, floor) overrides the first |
| Bot.SkipRoom | bot.py:351-412 | the outcome is the checks' outcome; a refusal changes no table. A successful skip appends the entry (next id, floor, room, reason, "id:first_name") to the queue and advances the autoincrement id. It also rewrites today's record of the floor to the floor's circular successor of the room. Other tables are unchanged |
| Bot.FloorStrings | bot.py:382-383 | each floor written as `str(floor)` |
| Bot.FloorCheckIff | bot.py:382-383 | for floors written without spaces, `str(room // 100)` is among the pieces of the split iff the room's floor is one of them |
| Bot.SpacedFloorsRefused | bot.py:382-383 | with floors written "2, 3" a room of floor 3 is refused and a room of floor 2 is accepted |
| Bot.ConfirmAfterSkipMisses | database.py:176-181 | once a skip has moved today's duty to another room, confirming the skipped room leaves that floor's record as it is |
| Database.Store.constructor | database.py:13-117 | an empty database: empty tables, queue ids starting at 1 |
| Database.Store.SeedData | database.py:120-140 | the rooms table becomes the old one with every room floor*100+idx (floors 2..9, idx 1..12, one duty day) inserted unless its number is taken; nothing else changes |
| Database.SeedOneFloor | database.py:131-138 | the inner loop inserts the twelve rooms of one floor in order |
| Database.InsertRoomIgnoresTaken | database.py:135-138 | `INSERT OR IGNORE` by room number: a number already in the table leaves the table as it is |
| Database.InsertRoomAddsNew | database.py:135-138 | `INSERT OR IGNORE` of a new number adds exactly that room (one more row, same multiset plus the room) |
| Database.InsertAllSnoc | database.py:130-138 | inserting a list of rooms one by one is inserting the prefix and then the last room |
| Database.SeedFloor | database.py:131-137 | the rooms of one floor: twelve, room i being floor*100+i with one duty day |
| Database.SeedAllFloors | database.py:130-138 | the outer loop over floors 2..9 inserts the whole seed list, floor after floor, and keeps the rooms table ordered |
| Database.SeedRoomNumber | database.py:132 | room number `floor * 100 + room_idx` has `room_idx` as its last two digits and `floor` as its hundreds |
| Database.SeedFloorsShape | database.py:130-138 | every seeded room has one duty day, a floor in 2..9, a last-two-digits index 1..12, and number // 100 equal to its floor |
| Database.InsertRoom | database.py:135-138 | `INSERT OR IGNORE` keeps the rooms table ordered by number; what it adds is stated by `InsertRoomIgnoresTaken` and `InsertRoomAddsNew` |
| Database.SeedFloorsOrdered | database.py:130-138 | the seed list is ordered by room number |
| Database.InsertRoomAtEnd | database.py:135-138 | a room above every room in the table is added at the end |
| Database.InsertAllIntoEmpty | database.py:135-138 | inserting an ordered list into an empty table gives that list |
| Database.SeedFromEmpty | database.py:113-116 | seeding an empty rooms table gives exactly the seed list |
| Database.SeededFloorRooms | database.py:130-138 | after seeding, a floor 2..9 has exactly its twelve seeded rooms, and any other floor none |
| Database.FloorRoomsMembers | scheduler.py:36-39 | `WHERE floor = ?`: the rooms of the floor and only those |
| Database.FloorRoomsOrdered | scheduler.py:36-39 | `ORDER BY number`: filtering an ordered rooms table keeps it ordered |
| Database.FloorRoomsAppend | scheduler.py:36-39 | the floor filter distributes over concatenation |
| Database.FloorRooms | scheduler.py:34-38 | the floor's rooms are no more than the table's; which rooms and in which order is stated by `FloorRoomsMembers` and `FloorRoomsOrdered` |
| Database.FloorNumbersIncreasing | database.py:412-418 | the floor's room numbers strictly ascend and are exactly the numbers of its rooms |
| Database.RoomNumbers | database.py:418 | `[r[0] for r in rooms]` keeps one number per room, in order |
| Database.HasRecordAt | scheduler.py:20-25 | `SELECT id FROM duty_schedule WHERE date = ? AND floor = ?` finds a row iff some record has that date and floor |
| Database.ConfirmRecords | database.py:171-183 | every record dated today whose room matches, on any floor, becomes completed with the confirmer and time; every other record is unchanged; the number of records is unchanged |
| Database.Store.ConfirmDuty | database.py:171-183 | returns true always; the schedule becomes the confirmation of today's records of the room; nothing else changes |
| Database.ConfirmLastWins | database.py:176-181 | confirming twice leaves the record completed with the last confirmer |
| Database.ConfirmKeepsOnePerDay | database.py:176-181 | confirmation keeps one record per (date, floor) |
| Database.PenaltyEndDate | database.py:214-215 | an end date exists iff day + days stays within the month; it then has the same year and month, and its day is exactly `days` after today's |
| Database.Store.AddPenalty | database.py:211-223 | a penalty from today to the end date is appended when the end date exists; otherwise (ValueError) nothing changes |
| Database.OverwriteAttendance | database.py:307-316 | the UPDATE branch: rows of the same (date, floor) take the new count, notes, submitter and time; all other rows are unchanged |
| Database.SaveAttendanceUpserts | database.py:301-325 | with at most one row per (date, floor) before, exactly one row for today's floor holds the new values afterwards, and every other (date, floor) row is unchanged |
| Database.SaveAttendanceKeepsOnePerDay | database.py:301-325 | the upsert keeps one attendance row per (date, floor) |
| Database.SaveAttendanceLastWins | database.py:301-325 | a second submission for the same (date, floor) replaces the first entirely |
| Database.SaveAttendanceRows | database.py:301-325 | the upsert adds at most one row and removes none; its meaning is stated by `SaveAttendanceUpserts`, `SaveAttendanceKeepsOnePerDay` and `SaveAttendanceLastWins` |
| Database.Store.SaveAttendance | database.py:301-325 | the attendance table becomes the upsert of today's row; nothing else changes |
| Database.Store.SkipDutyRoom | database.py:367-375 | appends one entry whose id is the next autoincrement id, above every existing id; existing entries and other tables are unchanged |
| Database.EntriesOfAppend | database.py:370-374 | an appended entry comes after every existing entry of its floor, and other floors' entries are unchanged |
| Database.EntriesOf | database.py:382-384 | a floor has no more entries than the queue; which ones is stated by `EntriesOfMembers` |
| Database.EntriesOfMembers | database.py:381-384 | the entries of a floor are exactly the queue entries on that floor |
| Database.QueuedRoomMembers | database.py:378-387 | `get_queued_room` returns an entry of that floor, and returns None iff the floor has no entry |
| Database.QueuedRoomIsOldest | database.py:381-384 | the returned entry has the smallest id among the floor's entries |
| Database.QueuedRoomIsHead | database.py:378-387 | the returned entry is the first of the floor's entries in queue order |
| Database.QueuedRoom | database.py:378-387 | `get_queued_room` returns an entry of the floor asked for; `QueuedRoomMembers`, `QueuedRoomIsOldest` and `QueuedRoomIsHead` state which |
| Database.FirstMatchIsFirst | database.py:393-394 | the position of the first entry matching floor and room, with no match before it |
| Database.RemoveFirstMembers | database.py:390-396 | the delete-one never adds an entry and never makes the queue longer |
| Database.RemoveFirstDeletesOne | database.py:393-394 | exactly the first entry matching floor and room is removed; with no match the queue is unchanged |
| Database.RemoveFirstKeepsOrder | database.py:390-396 | deleting keeps the ids ascending and below the next id |
| Database.RemoveFirstOtherFloor | database.py:390-396 | deleting on one floor leaves every other floor's entries unchanged |
| Database.RemoveFirstPopsHead | database.py:390-396 | deleting the served room of the floor drops exactly the head of that floor's entries |
| Database.RemoveFirst | database.py:390-397 | `LIMIT 1`: the delete removes at most one entry; which one is stated by `RemoveFirstDeletesOne` |
| Database.Store.ClearDutyQueue | database.py:390-396 | the queue becomes the delete-one; the next id and the other tables are unchanged |
| Database.CircularNext | database.py:419-423 | the successor is None iff the list is empty, and otherwise a member of the list |
| Database.CircularNextSteps | database.py:419-421 | from a present room with a larger one, the successor is the smallest larger room |
| Database.CircularNextWrapsToFirst | database.py:419-423 | from the largest room, or from a room that is not listed, the successor is the first room of the ascending list |
| Database.CircularNextWraps | database.py:419-423 | from the largest room, or from a room that is not listed, the successor is the smallest room |
| Database.NextRoomIsCircularSuccessor | database.py:409-423 | the successor is a room of the same floor: the next larger one, the smallest one when the room is the largest or absent, and None for a floor without rooms |
| Database.NextRoomInSequence | database.py:409-423 | `get_next_room_in_sequence` returns None iff the floor has no rooms, and otherwise a room number of the floor |
| Database.FindSupervisor | database.py:280-289 | the supervisor row with that Telegram id, and None iff no row has it |
| Calendar.DaysInMonth | scheduler.py:46 | month lengths are 28 to 31, and 29 exactly for February of a leap year |
| Calendar.DayOfYear | scheduler.py:46 | `tm_yday` lies in 1..days in the year and is the day itself in January |
| Calendar.DayOfYearCounts | scheduler.py:46 | the day of year of the next calendar day is one more, or 1 after 31 December |
| Text.IntToString | bot.py:383 | `str(n)` is non-empty and contains no comma or space |
| Text.NatToStringValue | bot.py:383 | the decimal digits of n have value n |
| Text.ParseInt | bot.py:171 | `int(s)` succeeds only on text that is not blank |
| Text.ParseIntToString | bot.py:373 | `int(str(n)) == n` |
| Text.IntToStringInjective | bot.py:383 | two numbers print alike iff they are equal |
| Text.Split | bot.py:382 | `split(',')` returns at least one piece, and no piece contains the separator |
| Text.JoinSplit | bot.py:382 | joining the pieces of a split with the separator gives back the text |
| Text.SplitJoin | bot.py:382 | splitting a join of separator-free pieces gives back the pieces |


## Findings

| source | as written | input that shows it | evidently intended | confidence | as-written member | corrected member |
|---|---|---|---|---|---|---|
| scheduler.py:28-59 | the run inserts on one connection and holds SQLite's write lock until the commit at line 59; `clear_duty_queue` deletes on another connection, so on any floor after the first insert it raises "database is locked" and the run aborts with nothing committed | seeded rooms, no rows for today, one `/skip` of room 305 queued on floor 3: floor 2 inserts its rotation room, floor 3 takes 305 from the queue and the delete cannot get the lock; every later run fails the same way | each floor served from the queue gets its row and loses its queue entry, the other floors get their rotation rooms | not executed | Scheduler.LockedRunStopsAtSkippedFloor | Scheduler.GenerateQueueServed |

## Left out

- Telegram I/O: replies, message text, Markdown, keyboards, notifications, the job queue timings
  and environment variables. Only the tables the handlers change are modelled.
- admin.py: the web admin panel, its HTML, its HTTP calls and its float `completion_rate`.
- Persistence: SQLite, the schema creation, connections and commits are replaced by the fields of
  `Store`. The per-connection effect that matters is kept: a failed generation discards its inserts
  but keeps the queue deletions.
- SQLite's write lock is modelled only in `Scheduler.GenerateLocked` (see Findings below). The run's
  first INSERT (scheduler.py:53-56) opens a transaction that holds the write lock until the commit at
  scheduler.py:59. A later `clear_duty_queue` (database.py:392-397) deletes on its own connection, so
  it waits out the busy timeout and raises "database is locked". The run then aborts and loses its
  inserts. So once any floor has been inserted, a queued `/skip` on a later floor (3..9) makes every
  generation fail until the entry is removed by hand. bot.py:38-82 has the same code. The rest of
  the model treats every operation as atomic, as if the delete went through.
- Scheduler.GenerateDutySchedule: proved against `Generate`, the run without the write lock. It is the
  program as written only when no floor after the first insert is served from the queue.
- Scheduler.GenerateQueueServed: holds for `Generate`, not for the program as written. There, a
  floor 3..9 served from the queue after an insert aborts the run, and nothing is served.
- Scheduler.SkippedRoomWaitsItsTurn: holds for `Generate`; as written, the queued room on floors
  3..9 is never served while an earlier floor inserts in the same run.
- Scheduler.SkipsServedInOrder: holds for `Generate`; as written, the same lock stops the run at the
  skipped floor on floors 3..9.
- `DELETE ... ORDER BY id LIMIT 1` (database.py:394) needs SQLite built with
  SQLITE_ENABLE_UPDATE_DELETE_LIMIT; otherwise it is a syntax error. The model assumes the option is
  on.
- Concurrency: two handlers running the check-then-insert of generation or of the attendance upsert
  at the same time.
- Clocks: `date.today()` and `datetime.now()` are parameters (`today`, `now`). `today` must be a valid
  date, as the clock guarantees. Timestamps are opaque strings.
- The `created_at` default of the queue, and the `floors` table that seeding fills and nothing in the
  core reads.
- Text.ParseInt: its own contract only says a parse succeeds on non-blank text; what it reads is stated by `Text.ParseIntToString` (`int(str(n)) == n`). It models `int()` on ASCII digits, an optional sign, surrounding whitespace and single
  underscores between digits; Python also accepts other Unicode decimal digits and whitespace.
- The attendance conversation flow (bot.py:546-687), its floor selection and remaining-floors list,
  and the reminders built on it.
- The read-only getters (`get_today_duty`, `get_all_today_duties`, `get_floor_info`,
  `get_all_queued_rooms` and the like): they are table lookups, used only for display.
- The `/jazo` handler's own parsing (bot.py:322-349): only the database side of `add_penalty` is
  modelled.
- Supervisors whose `floors` column is NULL: `split` would raise on it. The model takes floors as a
  string.
- Bot.SkipRoom: the call to `get_floor_supervisor_by_telegram` and the rest run as one atomic step.
  Between the queue insert and the schedule update another handler could interleave.
