/** The tables of database.py and the record operations on them.
    Each SQL table is a sequence in the order of its primary key (rooms by
    number, the others by their autoincrement id); `date.today()` and
    `datetime.now()` become parameters. */
module Database {
  import opened Common
  import opened Calendar

  // ---------------------------------------------------------------- records

  /** A row of `rooms`: `duty_days` is how many consecutive rotation slots the room takes. */
  datatype Room = Room(number: int, floor: int, dutyDays: int)

  datatype Status = Pending | Completed

  /** A row of `duty_schedule`. `room` is NULL only after a skip on a floor without rooms. */
  datatype DutyRecord = DutyRecord(
    date: Date, floor: int, room: Option<int>,
    status: Status, confirmedBy: Option<string>, confirmedAt: Option<string>)

  /** A row of `duty_queue`: a skipped room that owes a make-up turn. */
  datatype QueueEntry = QueueEntry(id: nat, floor: int, room: int, reason: string, skippedBy: string)

  /** A row of `attendance`. */
  datatype AttendanceRecord = AttendanceRecord(
    date: Date, floor: int, studentCount: int, notes: Option<string>,
    submittedBy: string, submittedAt: string)

  /** A row of `penalties`. */
  datatype Penalty = Penalty(
    room: int, kind: string, reason: string, startDate: Date, endDate: Date, issuedBy: string)

  /** A row of `floor_supervisors`: `floors` is the comma-separated text the admin typed. */
  datatype Supervisor = Supervisor(telegramId: string, name: string, floors: string)

  // ---------------------------------------------------------------- rooms

  /** `number` is the primary key, so the table in key order is strictly ascending. */
  ghost predicate RoomsOrdered(rooms: seq<Room>) {
    forall i, j :: 0 <= i < j < |rooms| ==> rooms[i].number < rooms[j].number
  }

  /** `SELECT ... FROM rooms WHERE floor = ? ORDER BY number`. */
  function FloorRooms(rooms: seq<Room>, floor: int): (r: seq<Room>)
    ensures |r| <= |rooms|
  {
    if rooms == [] then []
    else (if rooms[0].floor == floor then [rooms[0]] else []) + FloorRooms(rooms[1..], floor)
  }

  /** The floor's rooms are the rooms of the table on that floor, and only those. */
  lemma {:induction false} FloorRoomsMembers(rooms: seq<Room>, floor: int)
    ensures forall x :: x in FloorRooms(rooms, floor) <==> x in rooms && x.floor == floor
  {
    if rooms != [] {
      FloorRoomsMembers(rooms[1..], floor);
      assert rooms == [rooms[0]] + rooms[1..];
    }
  }

  /** Filtering a table in key order keeps the key order. */
  lemma {:induction false} FloorRoomsOrdered(rooms: seq<Room>, floor: int)
    requires RoomsOrdered(rooms)
    ensures RoomsOrdered(FloorRooms(rooms, floor))
  {
    if rooms != [] {
      RoomsOrderedTail(rooms);
      FloorRoomsOrdered(rooms[1..], floor);
      if rooms[0].floor == floor {
        FloorRoomsMembers(rooms[1..], floor);
        RoomsOrderedCons(rooms[0], FloorRooms(rooms[1..], floor), rooms[1..]);
      }
    }
  }

  /** The tail of an ordered table is ordered, and its numbers are above the head's. */
  lemma RoomsOrderedTail(rooms: seq<Room>)
    requires rooms != [] && RoomsOrdered(rooms)
    ensures RoomsOrdered(rooms[1..])
    ensures forall x :: x in rooms[1..] ==> rooms[0].number < x.number
  {
    forall x | x in rooms[1..]
      ensures rooms[0].number < x.number
    {
      var k :| 0 <= k < |rooms[1..]| && rooms[1..][k] == x;
      assert rooms[k + 1] == x;
    }
  }

  /** A room below every room of a table, put in front of an ordered
      selection of that table, keeps it ordered. */
  lemma RoomsOrderedCons(head: Room, rest: seq<Room>, table: seq<Room>)
    requires RoomsOrdered(rest)
    requires forall x :: x in rest ==> x in table
    requires forall x :: x in table ==> head.number < x.number
    ensures RoomsOrdered([head] + rest)
  {
    var r := [head] + rest;
    forall i, j | 0 <= i < j < |r|
      ensures r[i].number < r[j].number
    {
      if i == 0 {
        assert r[j] == rest[j - 1];
        assert rest[j - 1] in rest;
      } else {
        assert r[i] == rest[i - 1] && r[j] == rest[j - 1];
      }
    }
  }

  function RoomNumbers(rs: seq<Room>): (r: seq<int>)
    ensures |r| == |rs| && forall i :: 0 <= i < |rs| ==> r[i] == rs[i].number
  {
    if rs == [] then [] else [rs[0].number] + RoomNumbers(rs[1..])
  }

  /** The room numbers of a floor, ascending (`room_numbers` in get_next_room_in_sequence). */
  function FloorNumbers(rooms: seq<Room>, floor: int): seq<int> {
    RoomNumbers(FloorRooms(rooms, floor))
  }

  predicate StrictlyIncreasing(s: seq<int>) {
    forall i, j :: 0 <= i < j < |s| ==> s[i] < s[j]
  }

  lemma FloorNumbersIncreasing(rooms: seq<Room>, floor: int)
    requires RoomsOrdered(rooms)
    ensures StrictlyIncreasing(FloorNumbers(rooms, floor))
    ensures forall x :: x in FloorNumbers(rooms, floor) <==> exists r :: r in rooms && r.floor == floor && r.number == x
  {
    var fr := FloorRooms(rooms, floor);
    var nums := FloorNumbers(rooms, floor);
    FloorRoomsMembers(rooms, floor);
    FloorRoomsOrdered(rooms, floor);
    forall x
      ensures x in nums <==> exists r :: r in rooms && r.floor == floor && r.number == x
    {
      if x in nums {
        var i :| 0 <= i < |nums| && nums[i] == x;
        assert fr[i] in fr;
      }
      if exists r :: r in rooms && r.floor == floor && r.number == x {
        var r :| r in rooms && r.floor == floor && r.number == x;
        assert r in fr;
        var i :| 0 <= i < |fr| && fr[i] == r;
        assert nums[i] == x;
      }
    }
  }

  /** Position of the first room numbered `n` or above. */
  function LowerBound(rooms: seq<Room>, n: int): (k: nat)
    ensures k <= |rooms|
    ensures forall i :: 0 <= i < k ==> rooms[i].number < n
    ensures k < |rooms| ==> rooms[k].number >= n
    ensures RoomsOrdered(rooms) ==> forall i :: k <= i < |rooms| ==> rooms[i].number >= n
  {
    if rooms == [] || rooms[0].number >= n then 0 else 1 + LowerBound(rooms[1..], n)
  }

  /** `INSERT OR IGNORE INTO rooms`: a room whose number exists is ignored,
      any other takes its place in key order. */
  function InsertRoom(rooms: seq<Room>, room: Room): (r: seq<Room>)
    requires RoomsOrdered(rooms)
    ensures RoomsOrdered(r)
  {
    var k := LowerBound(rooms, room.number);
    if k < |rooms| && rooms[k].number == room.number then rooms
    else
      assert rooms == rooms[..k] + rooms[k..];
      InsertAtBoundKeepsOrder(rooms, room, k);
      rooms[..k] + [room] + rooms[k..]
  }

  /** A number already taken leaves the table as it is. */
  lemma InsertRoomIgnoresTaken(rooms: seq<Room>, room: Room, i: int)
    requires RoomsOrdered(rooms)
    requires 0 <= i < |rooms| && rooms[i].number == room.number
    ensures InsertRoom(rooms, room) == rooms
  {
    var k := LowerBound(rooms, room.number);
    assert k <= i;
    assert rooms[k].number == room.number;
  }

  /** A new number adds exactly that room. */
  lemma InsertRoomAddsNew(rooms: seq<Room>, room: Room)
    requires RoomsOrdered(rooms)
    requires forall i :: 0 <= i < |rooms| ==> rooms[i].number != room.number
    ensures |InsertRoom(rooms, room)| == |rooms| + 1
    ensures multiset(InsertRoom(rooms, room)) == multiset(rooms) + multiset{room}
  {
    var k := LowerBound(rooms, room.number);
    var front, back := rooms[..k], rooms[k..];
    assert k < |rooms| ==> rooms[k].number != room.number;
    assert InsertRoom(rooms, room) == front + [room] + back;
    assert multiset(rooms) == multiset(front) + multiset(back) by {
      assert rooms == front + back;
    }
  }

  /** A new number placed at its lower bound keeps the rooms strictly ascending. */
  lemma InsertAtBoundKeepsOrder(rooms: seq<Room>, room: Room, k: nat)
    requires RoomsOrdered(rooms) && k == LowerBound(rooms, room.number)
    requires !(k < |rooms| && rooms[k].number == room.number)
    ensures RoomsOrdered(rooms[..k] + [room] + rooms[k..])
  {
    var r := rooms[..k] + [room] + rooms[k..];
    forall i | k <= i < |rooms|
      ensures room.number < rooms[i].number
    {
      if i > k {
        assert rooms[k].number < rooms[i].number;
      }
    }
    forall i, j | 0 <= i < j < |r|
      ensures r[i].number < r[j].number
    {
      InsertedAt(rooms, room, k, i);
      InsertedAt(rooms, room, k, j);
    }
  }

  /** Element `i` of the rooms with `room` placed at position `k`. */
  lemma InsertedAt(rooms: seq<Room>, room: Room, k: nat, i: int)
    requires k <= |rooms| && 0 <= i <= |rooms|
    ensures (rooms[..k] + [room] + rooms[k..])[i] == if i < k then rooms[i] else if i == k then room else rooms[i - 1]
  {
  }


  /** The rooms after inserting `xs` one by one, in order. */
  function InsertAll(rooms: seq<Room>, xs: seq<Room>): (r: seq<Room>)
    requires RoomsOrdered(rooms)
    ensures RoomsOrdered(r)
  {
    if xs == [] then rooms else InsertRoom(InsertAll(rooms, xs[..|xs| - 1]), xs[|xs| - 1])
  }

  lemma InsertAllSnoc(rooms: seq<Room>, xs: seq<Room>, x: Room)
    requires RoomsOrdered(rooms)
    ensures InsertAll(rooms, xs + [x]) == InsertRoom(InsertAll(rooms, xs), x)
  {
    assert (xs + [x])[..|xs|] == xs;
  }

  lemma AppendOne(a: seq<Room>, b: seq<Room>, x: Room)
    ensures a + (b + [x]) == (a + b) + [x]
  {
  }

  /** The outer loop of seed_data: floors 2..9, each inserting its twelve rooms. */
  method SeedAllFloors(base: seq<Room>) returns (t: seq<Room>)
    requires RoomsOrdered(base)
    ensures RoomsOrdered(t) && t == InsertAll(base, SeedList())
  {
    t := base;
    for floor := 2 to 10
      invariant RoomsOrdered(t)
      invariant t == InsertAll(base, SeedFloors(floor - 1))
    {
      SeedFloorsStep(floor);
      t := SeedOneFloor(base, SeedFloors(floor - 1), t, floor);
    }
    SeedFloorsComplete();
  }

  /** The inner loop of seed_data: INSERT OR IGNORE of rooms 1..12 of `floor`. */
  method SeedOneFloor(ghost base: seq<Room>, ghost done: seq<Room>, table: seq<Room>, floor: int)
    returns (t: seq<Room>)
    requires RoomsOrdered(base) && table == InsertAll(base, done)
    ensures RoomsOrdered(t) && t == InsertAll(base, done + SeedFloor(floor))
  {
    t := table;
    assert done + FloorPrefix(floor, 0) == done;
    for idx := 1 to 13
      invariant RoomsOrdered(t)
      invariant t == InsertAll(base, done + FloorPrefix(floor, idx - 1))
    {
      InsertAllSnoc(base, done + FloorPrefix(floor, idx - 1), SeedRoom(floor, idx));
      AppendOne(done, FloorPrefix(floor, idx - 1), SeedRoom(floor, idx));
      t := InsertRoom(t, SeedRoom(floor, idx));
    }
  }

  /** Room `idx` of a floor as seed_data numbers it. */
  function SeedRoom(floor: int, idx: int): Room {
    Room(floor * 100 + idx, floor, 1)
  }

  /** The twelve rooms seed_data creates on one floor, ascending. */
  function SeedFloor(floor: int): (s: seq<Room>)
    ensures |s| == 12
    ensures forall i :: 0 <= i < 12 ==> s[i] == SeedRoom(floor, i + 1)
  {
    FloorPrefix(floor, 12)
  }

  /** Rooms 1..`n` of a floor, in the order seed_data inserts them. */
  function FloorPrefix(floor: int, n: nat): (s: seq<Room>)
    ensures |s| == n
    ensures forall i :: 0 <= i < n ==> s[i] == SeedRoom(floor, i + 1)
  {
    if n == 0 then [] else FloorPrefix(floor, n - 1) + [SeedRoom(floor, n)]
  }

  /** All the rooms seed_data creates, in creation order: floors 2..9,
      rooms 1..12 of each. */
  function SeedList(): (s: seq<Room>)
    ensures |s| == 96
  {
    seq(96, i requires 0 <= i < 96 => SeedRoom(2 + i / 12, i % 12 + 1))
  }

  /** The rooms seed_data has created once floors 2..`last` are done. */
  function SeedFloors(last: int): (s: seq<Room>)
    requires 1 <= last <= 9
    ensures |s| == 12 * (last - 1)
  {
    SeedList()[..12 * (last - 1)]
  }

  /** Floor `last`'s twelve rooms come right after those of the floors below. */
  lemma SeedFloorsStep(last: int)
    requires 2 <= last <= 9
    ensures SeedFloors(last) == SeedFloors(last - 1) + SeedFloor(last)
  {
    var a, b, c := SeedFloors(last), SeedFloors(last - 1), SeedFloor(last);
    forall k | 0 <= k < |a|
      ensures a[k] == (b + c)[k]
    {
      if k >= |b| {
        assert k / 12 == last - 2 && k % 12 == k - |b|;
      }
    }
  }

  lemma SeedFloorsComplete()
    ensures SeedFloors(9) == SeedList()
  {
  }

  // ---------------------------------------------------------------- duty schedule

  /** Whether some record of the schedule is for this date and floor. */
  predicate HasRecord(schedule: seq<DutyRecord>, date: Date, floor: int)
    decreases |schedule|
  {
    && schedule != []
    && (|| (schedule[|schedule| - 1].date == date && schedule[|schedule| - 1].floor == floor)
        || HasRecord(schedule[..|schedule| - 1], date, floor))
  }

  /** HasRecord holds exactly when some position holds a record for the date and floor. */
  lemma {:induction false} HasRecordAt(schedule: seq<DutyRecord>, date: Date, floor: int)
    decreases |schedule|
    ensures HasRecord(schedule, date, floor) <==>
      exists i :: 0 <= i < |schedule| && schedule[i].date == date && schedule[i].floor == floor
  {
    if schedule != [] {
      var init := schedule[..|schedule| - 1];
      HasRecordAt(init, date, floor);
      if exists i :: 0 <= i < |init| && init[i].date == date && init[i].floor == floor {
        var i :| 0 <= i < |init| && init[i].date == date && init[i].floor == floor;
        assert schedule[i] == init[i];
      }
      if exists i :: 0 <= i < |schedule| && schedule[i].date == date && schedule[i].floor == floor {
        var i :| 0 <= i < |schedule| && schedule[i].date == date && schedule[i].floor == floor;
        if i < |init| {
          assert init[i] == schedule[i];
        }
      }
    }
  }

  /** At most one duty record per (date, floor). */
  ghost predicate OnePerDay(schedule: seq<DutyRecord>) {
    forall i, j :: 0 <= i < j < |schedule| ==>
      !(schedule[i].date == schedule[j].date && schedule[i].floor == schedule[j].floor)
  }

  function Confirmed(rec: DutyRecord, who: string, at: string): DutyRecord {
    rec.(status := Completed, confirmedBy := Some(who), confirmedAt := Some(at))
  }

  /** The UPDATE of confirm_duty: every record of `date` whose room is `room`,
      on whatever floor, becomes completed and carries the confirmer. */
  function ConfirmRecords(schedule: seq<DutyRecord>, date: Date, room: int, who: string, at: string): (r: seq<DutyRecord>)
    ensures |r| == |schedule|
    ensures forall i :: 0 <= i < |schedule| ==>
      r[i] == if schedule[i].date == date && schedule[i].room == Some(room) then Confirmed(schedule[i], who, at) else schedule[i]
  {
    if schedule == [] then []
    else
      var rec := schedule[0];
      [if rec.date == date && rec.room == Some(room) then Confirmed(rec, who, at) else rec]
        + ConfirmRecords(schedule[1..], date, room, who, at)
  }

  // ---------------------------------------------------------------- duty queue

  /** Ids grow in table order and stay below the next autoincrement value. */
  ghost predicate QueueOrdered(queue: seq<QueueEntry>, nextId: nat) {
    && (forall i, j :: 0 <= i < j < |queue| ==> queue[i].id < queue[j].id)
    && (forall i :: 0 <= i < |queue| ==> queue[i].id < nextId)
  }

  /** The entries of one floor, in id order: the same filter as FloorRooms,
      over the queue table. */
  function EntriesOf(queue: seq<QueueEntry>, floor: int): (r: seq<QueueEntry>)
    ensures |r| <= |queue|
  {
    if queue == [] then []
    else (if queue[0].floor == floor then [queue[0]] else []) + EntriesOf(queue[1..], floor)
  }

  /** The entries of a floor are exactly the queue's entries on that floor. */
  lemma {:induction false} EntriesOfMembers(queue: seq<QueueEntry>, floor: int)
    ensures forall e :: e in EntriesOf(queue, floor) <==> e in queue && e.floor == floor
  {
    if queue != [] {
      EntriesOfMembers(queue[1..], floor);
      assert queue == [queue[0]] + queue[1..];
    }
  }

  /** get_queued_room: the first row of `duty_queue WHERE floor = ? ORDER BY id`. */
  function QueuedRoom(queue: seq<QueueEntry>, floor: int): (r: Option<QueueEntry>)
    ensures r.Some? ==> r.value.floor == floor
  {
    if queue == [] then None
    else if queue[0].floor == floor then Some(queue[0])
    else QueuedRoom(queue[1..], floor)
  }

  /** get_queued_room returns an entry of the floor, and None exactly when
      the floor has no entry. */
  lemma {:induction false} QueuedRoomMembers(queue: seq<QueueEntry>, floor: int)
    ensures QueuedRoom(queue, floor).Some? ==> QueuedRoom(queue, floor).value in queue && QueuedRoom(queue, floor).value.floor == floor
    ensures QueuedRoom(queue, floor).None? <==> forall e :: e in queue ==> e.floor != floor
  {
    if queue != [] {
      QueuedRoomMembers(queue[1..], floor);
      assert queue == [queue[0]] + queue[1..];
    }
  }

  /** clear_duty_queue: `DELETE ... WHERE floor = ? AND room_number = ? ORDER BY id LIMIT 1`. */
  function RemoveFirst(queue: seq<QueueEntry>, floor: int, room: int): (r: seq<QueueEntry>)
    ensures |queue| - 1 <= |r| <= |queue|
  {
    if queue == [] then []
    else if queue[0].floor == floor && queue[0].room == room then queue[1..]
    else [queue[0]] + RemoveFirst(queue[1..], floor, room)
  }

  // ---------------------------------------------------------------- attendance

  ghost predicate OneAttendancePerDay(att: seq<AttendanceRecord>) {
    forall i, j :: 0 <= i < j < |att| ==> !(att[i].date == att[j].date && att[i].floor == att[j].floor)
  }

  predicate HasAttendance(att: seq<AttendanceRecord>, date: Date, floor: int) {
    exists i :: 0 <= i < |att| && att[i].date == date && att[i].floor == floor
  }

  /** The UPDATE branch of save_attendance: every row of (date, floor) takes the new values. */
  function OverwriteAttendance(att: seq<AttendanceRecord>, rec: AttendanceRecord): (r: seq<AttendanceRecord>)
    ensures |r| == |att|
    ensures forall i :: 0 <= i < |att| ==>
      r[i] == if att[i].date == rec.date && att[i].floor == rec.floor then rec else att[i]
  {
    if att == [] then []
    else [if att[0].date == rec.date && att[0].floor == rec.floor then rec else att[0]]
         + OverwriteAttendance(att[1..], rec)
  }

  /** save_attendance: update the rows of (date, floor) if there are any, else insert one. */
  function SaveAttendanceRows(att: seq<AttendanceRecord>, rec: AttendanceRecord): (r: seq<AttendanceRecord>)
    ensures |att| <= |r| <= |att| + 1
  {
    if HasAttendance(att, rec.date, rec.floor) then OverwriteAttendance(att, rec) else att + [rec]
  }

  // ---------------------------------------------------------------- penalties

  /** `date(today.year, today.month, today.day + days)`: None where Python
      raises ValueError, because the day leaves the month. */
  function PenaltyEndDate(today: Date, days: int): (r: Option<Date>)
    requires ValidDate(today)
    ensures r.Some? <==> 1 <= today.day + days <= DaysInMonth(today.year, today.month)
    ensures r.Some? ==> ValidDate(r.value) && r.value.year == today.year && r.value.month == today.month
    ensures r.Some? ==> r.value.day - today.day == days
  {
    var day := today.day + days;
    if 1 <= day <= DaysInMonth(today.year, today.month) then Some(Date(today.year, today.month, day)) else None
  }

  // ---------------------------------------------------------------- supervisors

  /** get_floor_supervisor_by_telegram: the first row with this telegram id. */
  function FindSupervisor(sups: seq<Supervisor>, telegramId: string): (r: Option<Supervisor>)
    ensures r.Some? ==> r.value in sups && r.value.telegramId == telegramId
    ensures r.None? <==> forall s :: s in sups ==> s.telegramId != telegramId
  {
    if sups == [] then None
    else if sups[0].telegramId == telegramId then Some(sups[0])
    else FindSupervisor(sups[1..], telegramId)
  }

  // ---------------------------------------------------------------- the store

  /** The database file: one field per table the core reads or writes. */
  class Store {
    var rooms: seq<Room>
    var schedule: seq<DutyRecord>
    var queue: seq<QueueEntry>
    var nextQueueId: nat
    var attendance: seq<AttendanceRecord>
    var penalties: seq<Penalty>
    var supervisors: seq<Supervisor>

    ghost predicate Valid()
      reads this
    {
      && RoomsOrdered(rooms)
      && OnePerDay(schedule)
      && QueueOrdered(queue, nextQueueId)
      && OneAttendancePerDay(attendance)
    }

    /** A fresh database: empty tables, autoincrement starting at 1. */
    constructor ()
      ensures Valid()
      ensures rooms == [] && schedule == [] && queue == [] && attendance == []
      ensures penalties == [] && supervisors == [] && nextQueueId == 1
    {
      rooms, schedule, queue, attendance := [], [], [], [];
      penalties, supervisors, nextQueueId := [], [], 1;
    }

    /** seed_data: INSERT OR IGNORE of room floor*100+idx for floors 2..9, idx 1..12. */
    method SeedData()
      requires Valid()
      modifies this
      ensures Valid()
      ensures rooms == InsertAll(old(rooms), SeedList())
      ensures schedule == old(schedule) && queue == old(queue) && nextQueueId == old(nextQueueId)
      ensures attendance == old(attendance) && penalties == old(penalties) && supervisors == old(supervisors)
    {
      // The inserts accumulate in the connection's transaction and are
      // committed together at the end.
      rooms := SeedAllFloors(rooms);
    }

    /** confirm_duty: always answers True; see ConfirmRecords for what it changes. */
    method ConfirmDuty(room: int, who: string, today: Date, now: string) returns (ok: bool)
      requires Valid()
      modifies this
      ensures Valid() && ok
      ensures schedule == ConfirmRecords(old(schedule), today, room, who, now)
      ensures rooms == old(rooms) && queue == old(queue) && nextQueueId == old(nextQueueId)
      ensures attendance == old(attendance) && penalties == old(penalties) && supervisors == old(supervisors)
    {
      schedule := ConfirmRecords(schedule, today, room, who, now);
      ok := true;
    }

    /** add_penalty: appends a penalty whose end date is in the same month,
        or raises (changing nothing) when the day leaves the month. */
    method AddPenalty(room: int, kind: string, reason: string, days: int, who: string, today: Date) returns (ok: bool)
      requires Valid() && ValidDate(today)
      modifies this
      ensures Valid()
      ensures ok == PenaltyEndDate(today, days).Some?
      ensures penalties == if ok then old(penalties) + [Penalty(room, kind, reason, today, PenaltyEndDate(today, days).value, who)]
                           else old(penalties)
      ensures rooms == old(rooms) && schedule == old(schedule) && queue == old(queue) && nextQueueId == old(nextQueueId)
      ensures attendance == old(attendance) && supervisors == old(supervisors)
    {
      var end := PenaltyEndDate(today, days);
      if end.None? {
        return false;
      }
      penalties := penalties + [Penalty(room, kind, reason, today, end.value, who)];
      ok := true;
    }

    /** save_attendance for today's date. */
    method SaveAttendance(floor: int, count: int, who: string, notes: Option<string>, today: Date, now: string)
      requires Valid()
      modifies this
      ensures Valid()
      ensures attendance == SaveAttendanceRows(old(attendance), AttendanceRecord(today, floor, count, notes, who, now))
      ensures rooms == old(rooms) && schedule == old(schedule) && queue == old(queue) && nextQueueId == old(nextQueueId)
      ensures penalties == old(penalties) && supervisors == old(supervisors)
    {
      var rec := AttendanceRecord(today, floor, count, notes, who, now);
      SaveAttendanceKeepsOnePerDay(attendance, rec);
      attendance := SaveAttendanceRows(attendance, rec);
    }

    /** skip_duty_room: appends an entry with the next autoincrement id. */
    method SkipDutyRoom(floor: int, room: int, reason: string, who: string)
      requires Valid()
      modifies this
      ensures Valid()
      ensures queue == old(queue) + [QueueEntry(old(nextQueueId), floor, room, reason, who)]
      ensures nextQueueId == old(nextQueueId) + 1
      ensures forall e :: e in old(queue) ==> e.id < queue[|queue| - 1].id
      ensures rooms == old(rooms) && schedule == old(schedule)
      ensures attendance == old(attendance) && penalties == old(penalties) && supervisors == old(supervisors)
    {
      queue := queue + [QueueEntry(nextQueueId, floor, room, reason, who)];
      nextQueueId := nextQueueId + 1;
    }

    /** clear_duty_queue: deletes the oldest entry for this floor and room. */
    method ClearDutyQueue(floor: int, room: int)
      requires Valid()
      modifies this
      ensures Valid()
      ensures queue == RemoveFirst(old(queue), floor, room)
      ensures nextQueueId == old(nextQueueId)
      ensures rooms == old(rooms) && schedule == old(schedule)
      ensures attendance == old(attendance) && penalties == old(penalties) && supervisors == old(supervisors)
    {
      RemoveFirstKeepsOrder(queue, floor, room, nextQueueId);
      queue := RemoveFirst(queue, floor, room);
    }
  }

  // ---------------------------------------------------------------- lemmas: rooms and seeding

  /** Every seeded room has one duty day, a floor in 2..`last`, an index
      1..12 and the number floor*100+index, so `number // 100` is its floor. */
  lemma SeedFloorsShape(last: int)
    requires 1 <= last <= 9
    ensures forall r :: r in SeedFloors(last) ==>
      && 2 <= r.floor <= last && r.dutyDays == 1
      && 1 <= r.number % 100 <= 12 && r.number == r.floor * 100 + r.number % 100
      && r.number / 100 == r.floor
  {
    var s := SeedFloors(last);
    forall r | r in s
      ensures 2 <= r.floor <= last && r.dutyDays == 1
      ensures r.number % 100 == r.number - r.floor * 100 && r.number / 100 == r.floor
      ensures 1 <= r.number % 100 <= 12
    {
      var i :| 0 <= i < |s| && s[i] == r;
      assert r == SeedRoom(2 + i / 12, i % 12 + 1);
      SeedRoomNumber(2 + i / 12, i % 12 + 1);
    }
  }

  /** Room `idx` of a floor has the floor as `number // 100` and `idx` as `number % 100`. */
  lemma SeedRoomNumber(floor: int, idx: int)
    requires 1 <= idx <= 12
    ensures SeedRoom(floor, idx).number % 100 == idx && SeedRoom(floor, idx).number / 100 == floor
  {
  }


  /** Seeded rooms ascend strictly, each below every room of the next floor. */
  lemma {:induction false} SeedFloorsOrdered(last: int)
    requires 1 <= last <= 9
    ensures RoomsOrdered(SeedFloors(last))
    ensures forall r :: r in SeedFloors(last) ==> r.number <= last * 100 + 12
  {
    if last >= 2 {
      SeedFloorsOrdered(last - 1);
      SeedFloorsStep(last);
      var prev, block := SeedFloors(last - 1), SeedFloor(last);
      assert forall r :: r in block ==> last * 100 + 1 <= r.number <= last * 100 + 12;
      forall i, j | 0 <= i < j < |prev + block|
        ensures (prev + block)[i].number < (prev + block)[j].number
      {
        if i < |prev| && j >= |prev| {
          assert prev[i] in prev;
          assert block[j - |prev|] in block;
        }
      }
    }
  }

  lemma InsertRoomAtEnd(rooms: seq<Room>, room: Room)
    requires RoomsOrdered(rooms)
    requires forall x :: x in rooms ==> x.number < room.number
    ensures InsertRoom(rooms, room) == rooms + [room]
  {
    var k := LowerBound(rooms, room.number);
    if rooms != [] {
      var j := if k < |rooms| then k else 0;
      assert rooms[j] in rooms;
    }
    assert k == |rooms|;
    assert rooms[..|rooms|] == rooms;
  }

  /** Dropping the last room of an ascending list leaves it ascending, and
      every room before the last has a smaller number. */
  lemma OrderedLastIsLargest(xs: seq<Room>)
    requires RoomsOrdered(xs) && xs != []
    ensures RoomsOrdered(xs[..|xs| - 1])
    ensures forall x :: x in xs[..|xs| - 1] ==> x.number < xs[|xs| - 1].number
  {
    var init := xs[..|xs| - 1];
    forall x | x in init
      ensures x.number < xs[|xs| - 1].number
    {
      var i :| 0 <= i < |init| && init[i] == x;
      assert xs[i] == x;
    }
  }

  /** Inserting an ascending list into an empty table keeps it as it is. */
  lemma {:induction false} InsertAllIntoEmpty(xs: seq<Room>)
    requires RoomsOrdered(xs)
    ensures InsertAll([], xs) == xs
  {
    if xs != [] {
      var init, last := xs[..|xs| - 1], xs[|xs| - 1];
      OrderedLastIsLargest(xs);
      InsertAllIntoEmpty(init);
      assert InsertAll([], xs) == InsertRoom(InsertAll([], init), last);
      InsertRoomAtEnd(init, last);
      assert init + [last] == xs;
    }
  }

  /** Seeding an empty table yields exactly the seed list. */
  lemma SeedFromEmpty()
    ensures InsertAll([], SeedList()) == SeedList()
  {
    SeedFloorsOrdered(9);
    SeedFloorsComplete();
    InsertAllIntoEmpty(SeedList());
  }

  /** The floor filter distributes over concatenation. */
  lemma {:induction false} FloorRoomsAppend(a: seq<Room>, b: seq<Room>, floor: int)
    ensures FloorRooms(a + b, floor) == FloorRooms(a, floor) + FloorRooms(b, floor)
  {
    if a != [] {
      assert (a + b)[0] == a[0];
      assert (a + b)[1..] == a[1..] + b;
      FloorRoomsAppend(a[1..], b, floor);
      var x, y := FloorRooms(a[1..], floor), FloorRooms(b, floor);
      if a[0].floor == floor {
        assert FloorRooms(a + b, floor) == [a[0]] + (x + y);
        assert [a[0]] + (x + y) == ([a[0]] + x) + y;
        assert FloorRooms(a, floor) == [a[0]] + x;
      } else {
        assert FloorRooms(a + b, floor) == x + y;
        assert FloorRooms(a, floor) == x;
      }
    } else {
      assert a + b == b;
    }
  }

  /** Rooms that all lie on floor `g` are all or none of floor `floor`'s rooms. */
  lemma {:induction false} FloorRoomsOneFloor(rs: seq<Room>, g: int, floor: int)
    requires forall r :: r in rs ==> r.floor == g
    ensures FloorRooms(rs, floor) == if g == floor then rs else []
  {
    if rs != [] {
      assert rs[0] in rs;
      assert forall r :: r in rs[1..] ==> r in rs;
      FloorRoomsOneFloor(rs[1..], g, floor);
      if g == floor {
        assert [rs[0]] + rs[1..] == rs;
      }
    }
  }

  /** After seeding floors 2..`last`, a floor's rooms are its twelve seeded rooms. */
  lemma {:induction false} SeededFloorRooms(last: int, floor: int)
    requires 1 <= last <= 9
    decreases last
    ensures FloorRooms(SeedFloors(last), floor) == if 2 <= floor <= last then SeedFloor(floor) else []
  {
    if last >= 2 {
      var below, top := SeedFloors(last - 1), SeedFloor(last);
      SeededFloorRooms(last - 1, floor);
      SeedFloorsStep(last);
      FloorRoomsAppend(below, top, floor);
      SeedFloorOnItsFloor(last);
      FloorRoomsOneFloor(top, last, floor);
      if floor == last {
        assert FloorRooms(below, floor) + FloorRooms(top, floor) == [] + top;
      } else {
        assert FloorRooms(below, floor) + FloorRooms(top, floor) == FloorRooms(below, floor) + [];
      }
    }
  }

  lemma SeedFloorOnItsFloor(floor: int)
    ensures forall r :: r in SeedFloor(floor) ==> r.floor == floor
  {
    forall r | r in SeedFloor(floor)
      ensures r.floor == floor
    {
      var i :| 0 <= i < 12 && SeedFloor(floor)[i] == r;
    }
  }

  // ---------------------------------------------------------------- lemmas: queue

  /** get_queued_room returns the entry with the smallest id among the
      floor's entries (FIFO), and nothing when the floor has none. */
  lemma {:induction false} QueuedRoomIsOldest(queue: seq<QueueEntry>, nextId: nat, floor: int)
    requires QueueOrdered(queue, nextId)
    ensures QueuedRoom(queue, floor).Some? ==>
      forall e :: e in queue && e.floor == floor ==> QueuedRoom(queue, floor).value.id <= e.id
  {
    if queue != [] && queue[0].floor != floor {
      QueuedRoomIsOldest(queue[1..], nextId, floor);
      forall e | e in queue && e.floor == floor
        ensures e in queue[1..]
      {
        assert e != queue[0];
      }
    }
  }

  /** The queued room is the head of the floor's entries. */
  lemma {:induction false} QueuedRoomIsHead(queue: seq<QueueEntry>, floor: int)
    ensures QueuedRoom(queue, floor) == if EntriesOf(queue, floor) == [] then None else Some(EntriesOf(queue, floor)[0])
  {
    if queue != [] && queue[0].floor != floor {
      QueuedRoomIsHead(queue[1..], floor);
    }
  }

  /** Position of the first entry for this floor and room, `|queue|` if none. */
  function FirstMatch(queue: seq<QueueEntry>, floor: int, room: int): (k: nat)
    ensures k <= |queue|
  {
    if queue == [] then 0
    else if queue[0].floor == floor && queue[0].room == room then 0
    else 1 + FirstMatch(queue[1..], floor, room)
  }

  /** FirstMatch is the position of a match, with no match before it. */
  lemma {:induction false} FirstMatchIsFirst(queue: seq<QueueEntry>, floor: int, room: int)
    ensures var k := FirstMatch(queue, floor, room);
      && (k < |queue| ==> queue[k].floor == floor && queue[k].room == room)
      && (forall j :: 0 <= j < k ==> !(queue[j].floor == floor && queue[j].room == room))
  {
    if queue != [] && !(queue[0].floor == floor && queue[0].room == room) {
      FirstMatchIsFirst(queue[1..], floor, room);
      var k := FirstMatch(queue[1..], floor, room);
      forall j | 1 <= j < k + 1
        ensures queue[j] == queue[1..][j - 1]
      {
      }
    }
  }

  /** clear_duty_queue removes exactly the first entry matching floor and
      room, keeping every other entry in order; with no match it changes nothing. */
  lemma {:induction false} RemoveFirstDeletesOne(queue: seq<QueueEntry>, floor: int, room: int)
    ensures var k := FirstMatch(queue, floor, room);
      RemoveFirst(queue, floor, room) == if k == |queue| then queue else queue[..k] + queue[k + 1..]
  {
    if queue == [] {
    } else if queue[0].floor == floor && queue[0].room == room {
      assert queue[..0] + queue[1..] == queue[1..];
    } else {
      RemoveFirstStep(queue, floor, room);
      RemoveFirstDeletesOne(queue[1..], floor, room);
      DeleteOneCons(queue, FirstMatch(queue[1..], floor, room), RemoveFirst(queue[1..], floor, room));
    }
  }

  /** Past a head that does not match, the delete-one keeps the head and
      deletes from the tail, and the first match is one further on. */
  lemma RemoveFirstStep(queue: seq<QueueEntry>, floor: int, room: int)
    requires queue != [] && !(queue[0].floor == floor && queue[0].room == room)
    ensures RemoveFirst(queue, floor, room) == [queue[0]] + RemoveFirst(queue[1..], floor, room)
    ensures FirstMatch(queue, floor, room) == 1 + FirstMatch(queue[1..], floor, room)
  {
  }

  /** Deleting position `k` of the tail (nothing when `k` is past its end),
      then putting the head back in front, deletes position `k + 1` of the queue. */
  lemma DeleteOneCons(queue: seq<QueueEntry>, k: nat, removed: seq<QueueEntry>)
    requires k < |queue|
    requires removed == if k == |queue| - 1 then queue[1..] else queue[1..][..k] + queue[1..][k + 1..]
    ensures [queue[0]] + removed == if k + 1 == |queue| then queue else queue[..k + 1] + queue[k + 2..]
  {
    if k + 1 < |queue| {
      assert queue[..k + 1] == [queue[0]] + queue[1..][..k];
      assert queue[k + 2..] == queue[1..][k + 1..];
    } else {
      assert queue == [queue[0]] + queue[1..];
    }
  }

  /** The delete-one never adds an entry. */
  lemma {:induction false} RemoveFirstMembers(queue: seq<QueueEntry>, floor: int, room: int)
    ensures |RemoveFirst(queue, floor, room)| <= |queue|
    ensures forall e :: e in RemoveFirst(queue, floor, room) ==> e in queue
  {
    if queue != [] && !(queue[0].floor == floor && queue[0].room == room) {
      RemoveFirstMembers(queue[1..], floor, room);
      assert queue == [queue[0]] + queue[1..];
    }
  }

  lemma {:induction false} RemoveFirstKeepsOrder(queue: seq<QueueEntry>, floor: int, room: int, nextId: nat)
    requires QueueOrdered(queue, nextId)
    ensures QueueOrdered(RemoveFirst(queue, floor, room), nextId)
  {
    if queue == [] {
    } else if queue[0].floor == floor && queue[0].room == room {
      OrderedTail(queue, nextId);
    } else {
      RemoveFirstStep(queue, floor, room);
      OrderedTail(queue, nextId);
      RemoveFirstKeepsOrder(queue[1..], floor, room, nextId);
      RemoveFirstMembers(queue[1..], floor, room);
      OrderedCons(queue[0], RemoveFirst(queue[1..], floor, room), queue[1..], nextId);
    }
  }

  /** The tail of an ordered queue is ordered, and its ids are above the head's. */
  lemma OrderedTail(queue: seq<QueueEntry>, nextId: nat)
    requires queue != [] && QueueOrdered(queue, nextId)
    ensures QueueOrdered(queue[1..], nextId)
    ensures forall e :: e in queue[1..] ==> queue[0].id < e.id
  {
    forall e | e in queue[1..]
      ensures queue[0].id < e.id
    {
      var j :| 0 <= j < |queue[1..]| && queue[1..][j] == e;
      assert queue[j + 1] == e;
    }
  }

  /** An entry below every id of an ordered queue of older entries, put in
      front of it, keeps the queue ordered. */
  lemma OrderedCons(head: QueueEntry, rest: seq<QueueEntry>, older: seq<QueueEntry>, nextId: nat)
    requires QueueOrdered(rest, nextId) && head.id < nextId
    requires forall e :: e in rest ==> e in older
    requires forall e :: e in older ==> head.id < e.id
    ensures QueueOrdered([head] + rest, nextId)
  {
    var q := [head] + rest;
    forall i, j | 0 <= i < j < |q|
      ensures q[i].id < q[j].id
    {
      if i == 0 {
        assert q[j] == rest[j - 1];
        assert rest[j - 1] in rest;
      } else {
        assert q[i] == rest[i - 1] && q[j] == rest[j - 1];
      }
    }
    forall i | 0 <= i < |q|
      ensures q[i].id < nextId
    {
      if i > 0 {
        assert q[i] == rest[i - 1];
      }
    }
  }

  /** Removing an entry of another floor leaves this floor's entries alone. */
  lemma {:induction false} RemoveFirstOtherFloor(queue: seq<QueueEntry>, floor: int, room: int, other: int)
    requires other != floor
    ensures EntriesOf(RemoveFirst(queue, floor, room), other) == EntriesOf(queue, other)
  {
    if queue != [] && !(queue[0].floor == floor && queue[0].room == room) {
      RemoveFirstOtherFloor(queue[1..], floor, room, other);
    }
  }

  /** Removing the floor's queued room drops the head of that floor's entries. */
  lemma {:induction false} RemoveFirstPopsHead(queue: seq<QueueEntry>, floor: int)
    requires EntriesOf(queue, floor) != []
    ensures EntriesOf(RemoveFirst(queue, floor, EntriesOf(queue, floor)[0].room), floor) == EntriesOf(queue, floor)[1..]
  {
    var room := EntriesOf(queue, floor)[0].room;
    if queue[0].floor != floor {
      RemoveFirstPopsHead(queue[1..], floor);
    }
  }

  /** skip_duty_room appends after every entry of the floor: FIFO order. */
  lemma {:induction false} EntriesOfAppend(queue: seq<QueueEntry>, e: QueueEntry, floor: int)
    ensures EntriesOf(queue + [e], floor) == EntriesOf(queue, floor) + (if e.floor == floor then [e] else [])
  {
    if queue != [] {
      assert (queue + [e])[1..] == queue[1..] + [e];
      EntriesOfAppend(queue[1..], e, floor);
    }
  }

  // ---------------------------------------------------------------- lemmas: confirmation

  /** confirm_duty twice: the record stays completed and keeps the last
      confirmer; the first confirmation is not cleared to NULL. */
  lemma ConfirmLastWins(schedule: seq<DutyRecord>, date: Date, room: int, by1: string, at1: string, by2: string, at2: string)
    ensures ConfirmRecords(ConfirmRecords(schedule, date, room, by1, at1), date, room, by2, at2)
         == ConfirmRecords(schedule, date, room, by2, at2)
  {
    var once := ConfirmRecords(schedule, date, room, by1, at1);
    var twice := ConfirmRecords(once, date, room, by2, at2);
    var direct := ConfirmRecords(schedule, date, room, by2, at2);
    assert forall i :: 0 <= i < |schedule| ==> twice[i] == direct[i];
  }

  /** Confirmation changes only status and confirmer, so it keeps one record per day. */
  lemma ConfirmKeepsOnePerDay(schedule: seq<DutyRecord>, date: Date, room: int, who: string, at: string)
    requires OnePerDay(schedule)
    ensures OnePerDay(ConfirmRecords(schedule, date, room, who, at))
  {
    var r := ConfirmRecords(schedule, date, room, who, at);
    assert forall i :: 0 <= i < |r| ==> r[i].date == schedule[i].date && r[i].floor == schedule[i].floor;
  }

  // ---------------------------------------------------------------- lemmas: attendance

  /** With at most one row per (date, floor) before, save_attendance leaves
      exactly one, holding the new values, and keeps every other row. */
  lemma SaveAttendanceUpserts(att: seq<AttendanceRecord>, rec: AttendanceRecord)
    requires OneAttendancePerDay(att)
    ensures var r := SaveAttendanceRows(att, rec);
      && OneAttendancePerDay(r)
      && rec in r
      && (forall x :: x in r && x.date == rec.date && x.floor == rec.floor ==> x == rec)
      && (forall i :: 0 <= i < |att| && !(att[i].date == rec.date && att[i].floor == rec.floor) ==> r[i] == att[i])
      && |r| == if HasAttendance(att, rec.date, rec.floor) then |att| else |att| + 1
  {
    SaveAttendanceKeepsOnePerDay(att, rec);
    var r := SaveAttendanceRows(att, rec);
    if HasAttendance(att, rec.date, rec.floor) {
      var i :| 0 <= i < |att| && att[i].date == rec.date && att[i].floor == rec.floor;
      assert r[i] == rec;
    } else {
      assert r[|att|] == rec;
    }
  }

  lemma SaveAttendanceKeepsOnePerDay(att: seq<AttendanceRecord>, rec: AttendanceRecord)
    requires OneAttendancePerDay(att)
    ensures OneAttendancePerDay(SaveAttendanceRows(att, rec))
  {
    var r := SaveAttendanceRows(att, rec);
    if HasAttendance(att, rec.date, rec.floor) {
      assert forall i :: 0 <= i < |r| ==> r[i].date == att[i].date && r[i].floor == att[i].floor;
    }
  }

  /** A second submission for the same (date, floor) wins outright: the
      first leaves no trace. */
  lemma SaveAttendanceLastWins(att: seq<AttendanceRecord>, first: AttendanceRecord, second: AttendanceRecord)
    requires first.date == second.date && first.floor == second.floor
    ensures SaveAttendanceRows(SaveAttendanceRows(att, first), second) == SaveAttendanceRows(att, second)
  {
    var once := SaveAttendanceRows(att, first);
    assert HasAttendance(once, second.date, second.floor) by {
      if HasAttendance(att, first.date, first.floor) {
        var i :| 0 <= i < |att| && att[i].date == first.date && att[i].floor == first.floor;
        assert once[i] == first;
      } else {
        assert once[|att|] == first;
      }
    }
    var twice := SaveAttendanceRows(once, second);
    var direct := SaveAttendanceRows(att, second);
    assert |twice| == |direct|;
    assert forall i :: 0 <= i < |twice| ==> twice[i] == direct[i];
  }

  // ---------------------------------------------------------------- lemmas: next room

  /** get_next_room_in_sequence over the floor's ascending room numbers. */
  function NextRoomInSequence(rooms: seq<Room>, floor: int, current: int): (r: Option<int>)
    ensures r.None? <==> FloorNumbers(rooms, floor) == []
    ensures r.Some? ==> r.value in FloorNumbers(rooms, floor)
  {
    CircularNext(FloorNumbers(rooms, floor), current)
  }

  /** The element after `current` in `nums`, wrapping to the first; the first
      when `current` is absent; None when `nums` is empty. */
  function CircularNext(nums: seq<int>, current: int): (r: Option<int>)
    ensures r.None? <==> nums == []
    ensures r.Some? ==> r.value in nums
  {
    if current in nums then
      var i := IndexOf(nums, current);
      Some(nums[(i + 1) % |nums|])
    else if nums != [] then Some(nums[0])
    else None
  }

  /** `list.index`: the first position of `x`. */
  function IndexOf(s: seq<int>, x: int): (i: nat)
    requires x in s
    ensures i < |s| && s[i] == x && forall j :: 0 <= j < i ==> s[j] != x
  {
    if s[0] == x then 0 else 1 + IndexOf(s[1..], x)
  }

  lemma FirstIsLeast(nums: seq<int>)
    requires StrictlyIncreasing(nums) && nums != []
    ensures forall x :: x in nums ==> nums[0] <= x
  {
    forall x | x in nums
      ensures nums[0] <= x
    {
      var j :| 0 <= j < |nums| && nums[j] == x;
    }
  }

  lemma ModBelow(a: int, n: int)
    requires 0 <= a < n
    ensures a % n == a
  {
  }

  /** In an ascending list, the element after a present `current` that is
      not the largest is the least element above it. */
  lemma CircularNextSteps(nums: seq<int>, current: int)
    requires StrictlyIncreasing(nums)
    requires current in nums && exists x :: x in nums && x > current
    ensures CircularNext(nums, current).Some? && CircularNext(nums, current).value > current
    ensures forall x :: x in nums && x > current ==> CircularNext(nums, current).value <= x
  {
    IndexBelowLarger(nums, current);
    var i := IndexOf(nums, current);
    ModBelow(i + 1, |nums|);
    assert CircularNext(nums, current) == Some(nums[i + 1]);
    NextIsLeastAbove(nums, i);
  }

  /** A present element with a larger one after it is not the last. */
  lemma IndexBelowLarger(nums: seq<int>, current: int)
    requires StrictlyIncreasing(nums)
    requires current in nums && exists x :: x in nums && x > current
    ensures IndexOf(nums, current) + 1 < |nums|
  {
    var i := IndexOf(nums, current);
    var y :| y in nums && y > current;
    var jy :| 0 <= jy < |nums| && nums[jy] == y;
    assert i < jy;
  }

  /** In a strictly increasing sequence the next element is the least one above. */
  lemma NextIsLeastAbove(nums: seq<int>, i: nat)
    requires StrictlyIncreasing(nums) && i + 1 < |nums|
    ensures nums[i] < nums[i + 1]
    ensures forall x :: x in nums && x > nums[i] ==> nums[i + 1] <= x
  {
    forall x | x in nums && x > nums[i]
      ensures nums[i + 1] <= x
    {
      var j :| 0 <= j < |nums| && nums[j] == x;
      if j > i + 1 {
        assert nums[i + 1] < nums[j];
      }
    }
  }

  /** From the largest element, or from an absent one, CircularNext wraps
      to the least element. */
  lemma CircularNextWraps(nums: seq<int>, current: int)
    requires StrictlyIncreasing(nums) && nums != []
    requires current !in nums || forall x :: x in nums ==> x <= current
    ensures CircularNext(nums, current).Some?
    ensures forall x :: x in nums ==> CircularNext(nums, current).value <= x
  {
    CircularNextWrapsToFirst(nums, current);
    FirstIsLeast(nums);
  }

  /** From the largest element, or from an absent one, CircularNext is the first element. */
  lemma CircularNextWrapsToFirst(nums: seq<int>, current: int)
    requires StrictlyIncreasing(nums) && nums != []
    requires current !in nums || forall x :: x in nums ==> x <= current
    ensures CircularNext(nums, current) == Some(nums[0])
  {
    if current in nums {
      var i := IndexOf(nums, current);
      var j := if i + 1 < |nums| then i + 1 else i;
      assert nums[j] in nums;
      assert j == i;
      assert (i + 1) % |nums| == 0;
    }
  }

  /** The skip successor of a room is a room of the same floor: the next one
      up, wrapping from the highest to the lowest. */
  lemma NextRoomIsCircularSuccessor(rooms: seq<Room>, floor: int, current: int)
    requires RoomsOrdered(rooms)
    ensures var nums := FloorNumbers(rooms, floor);
      var r := NextRoomInSequence(rooms, floor, current);
      && (r.None? <==> forall x :: x in rooms ==> x.floor != floor)
      && (r.Some? ==> exists x :: x in rooms && x.floor == floor && x.number == r.value)
      && (current in nums && (exists x :: x in nums && x > current) ==>
            r.Some? && r.value > current && forall x :: x in nums && x > current ==> r.value <= x)
      && ((current !in nums || forall x :: x in nums ==> x <= current) && nums != [] ==>
            r.Some? && forall x :: x in nums ==> r.value <= x)
  {
    var nums := FloorNumbers(rooms, floor);
    FloorNumbersIncreasing(rooms, floor);
    if current in nums && (exists x :: x in nums && x > current) {
      CircularNextSteps(nums, current);
    }
    if (current !in nums || forall x :: x in nums ==> x <= current) && nums != [] {
      CircularNextWraps(nums, current);
    }
    if exists x :: x in rooms && x.floor == floor {
      var x :| x in rooms && x.floor == floor;
      assert x.number in FloorNumbers(rooms, floor);
    }
  }
}
