/** The daily duty rotation of scheduler.py (generate_duty_schedule, the
    same algorithm as bot.py) and the completed/pending report. */
module Scheduler {
  import opened Common
  import opened Calendar
  import opened Database

  // ---------------------------------------------------------------- the duty sequence

  /** How many slots `[room] * duty_days` yields: none for a count of zero or less. */
  function Weight(dutyDays: int): nat {
    if dutyDays <= 0 then 0 else dutyDays
  }

  /** `[x] * n`. */
  function Repeat(x: int, n: int): (r: seq<int>)
    ensures |r| == Weight(n)
  {
    if n <= 0 then [] else [x] + Repeat(x, n - 1)
  }

  /** Every slot of `[x] * n` is `x`. */
  lemma {:induction false} RepeatAll(x: int, n: int)
    ensures forall i :: 0 <= i < |Repeat(x, n)| ==> Repeat(x, n)[i] == x
  {
    if n > 0 {
      RepeatAll(x, n - 1);
      assert forall i :: 1 <= i <= |Repeat(x, n - 1)| ==> Repeat(x, n)[i] == Repeat(x, n - 1)[i - 1];
    }
  }

  /** The total number of rotation slots the rooms take. */
  function TotalWeight(rs: seq<Room>): nat {
    if rs == [] then 0 else TotalWeight(rs[..|rs| - 1]) + Weight(rs[|rs| - 1].dutyDays)
  }

  /** `duty_sequence`: each room's number repeated `duty_days` times, in room order. */
  function DutySequence(rs: seq<Room>): (s: seq<int>)
    ensures |s| == TotalWeight(rs)
  {
    if rs == [] then []
    else DutySequence(rs[..|rs| - 1]) + Repeat(rs[|rs| - 1].number, rs[|rs| - 1].dutyDays)
  }

  /** Slot `k` of the duty sequence, found room by room without building
      the sequence (SlotInDutySequence: it is `DutySequence(rs)[k]`). */
  function Slot(rs: seq<Room>, k: int): int
    decreases |rs|
  {
    if rs == [] then 0
    else if k < TotalWeight(rs[..|rs| - 1]) then Slot(rs[..|rs| - 1], k)
    else rs[|rs| - 1].number
  }

  lemma {:induction false} SlotInDutySequence(rs: seq<Room>, k: int)
    requires 0 <= k < TotalWeight(rs)
    ensures Slot(rs, k) == DutySequence(rs)[k]
  {
    var init, last := rs[..|rs| - 1], rs[|rs| - 1];
    var front, block := DutySequence(init), Repeat(last.number, last.dutyDays);
    assert DutySequence(rs) == front + block;
    if k < TotalWeight(init) {
      SlotInDutySequence(init, k);
    } else {
      RepeatAll(last.number, last.dutyDays);
      assert DutySequence(rs)[k] == block[k - |front|];
    }
  }

  /** The `for room_num, duty_days in rooms: duty_sequence.extend(...)` loop. */
  method BuildDutySequence(rs: seq<Room>) returns (s: seq<int>)
    ensures s == DutySequence(rs)
  {
    s := [];
    for i := 0 to |rs|
      invariant s == DutySequence(rs[..i])
    {
      assert rs[..i + 1][..i] == rs[..i];
      s := s + Repeat(rs[i].number, rs[i].dutyDays);
    }
    assert rs[..|rs|] == rs;
  }

  /** `(day_of_year + (floor - 2) * 3) % len(duty_sequence)`: Python's `%`
      with a positive divisor is the Euclidean remainder. */
  function RotationIndex(dayOfYear: int, floor: int, n: int): (k: int)
    requires n > 0
    ensures 0 <= k < n
  {
    (dayOfYear + (floor - 2) * 3) % n
  }

  lemma {:induction false} MulBounds(k: int, n: int)
    decreases if k < 0 then -k else k
    ensures n > 0 && k >= 1 ==> k * n >= n
    ensures n > 0 && k <= -1 ==> k * n <= -n
  {
    if n > 0 && k >= 1 {
      MulBounds(k - 1, n);
    } else if n > 0 && k <= -1 {
      MulBounds(k + 1, n);
    }
  }

  /** Quotient and remainder are unique. */
  lemma ModUnique(a: int, n: int, q: int, r: int)
    requires n > 0 && 0 <= r < n && a == q * n + r
    ensures a % n == r && a / n == q
  {
    var q0, r0 := a / n, a % n;
    assert (q - q0) * n == r0 - r;
    MulBounds(q - q0, n);
  }

  /** One day later the rotation moves one slot on, wrapping at the end. */
  lemma RotationNextDay(dayOfYear: int, floor: int, n: int)
    requires n > 0
    ensures RotationIndex(dayOfYear + 1, floor, n) == (RotationIndex(dayOfYear, floor, n) + 1) % n
  {
    var a := dayOfYear + (floor - 2) * 3;
    var q, r := a / n, a % n;
    if r + 1 < n {
      ModUnique(a + 1, n, q, r + 1);
      ModUnique(r + 1, n, 0, r + 1);
    } else {
      ModUnique(a + 1, n, q + 1, 0);
      ModUnique(r + 1, n, 1, 0);
    }
  }

  /** On the same day the floor above is three slots further on, so
      floors with the same rooms per floor do not clean in step. */
  lemma RotationNextFloor(dayOfYear: int, floor: int, n: int)
    requires n > 0
    ensures RotationIndex(dayOfYear, floor + 1, n) == (RotationIndex(dayOfYear, floor, n) + 3) % n
  {
    var a := dayOfYear + (floor - 2) * 3;
    var q, r := a / n, a % n;
    var q3, r3 := (r + 3) / n, (r + 3) % n;
    ModUnique(a + 3, n, q + q3, r3);
  }

  /** From one calendar day to the next within a year, the rotation of
      every floor advances by one slot; on the first of January it
      restarts from the day-of-year 1 slot. */
  lemma RotationAdvancesDaily(today: Date, floor: int, n: int)
    requires ValidDate(today) && today.year < 9999 && n > 0
    ensures ValidDate(NextDay(today))
    ensures !(today.month == 12 && today.day == 31) ==>
      RotationIndex(DayOfYear(NextDay(today)), floor, n) == (RotationIndex(DayOfYear(today), floor, n) + 1) % n
    ensures today.month == 12 && today.day == 31 ==>
      RotationIndex(DayOfYear(NextDay(today)), floor, n) == RotationIndex(1, floor, n)
  {
    DayOfYearCounts(today);
    RotationNextDay(DayOfYear(today), floor, n);
  }

  // ---------------------------------------------------------------- one floor

  /** What generate_duty_schedule does for one floor. */
  datatype Choice =
    | Existing                 // a record for (today, floor) exists: `continue`
    | FromQueue(entry: QueueEntry)  // the oldest skipped room of the floor owes its turn
    | FromRotation(room: int)  // the rotation slot of the day
    | NoRooms                  // empty duty sequence: `% 0` raises ZeroDivisionError

  /** A freshly generated row: status 'pending', nobody has confirmed it. */
  function NewRecord(today: Date, floor: int, room: int): DutyRecord {
    DutyRecord(today, floor, Some(room), Pending, None, None)
  }

  /** The branch taken for `floor` on the given tables. */
  function Choose(rooms: seq<Room>, schedule: seq<DutyRecord>, queue: seq<QueueEntry>, today: Date, dayOfYear: int, floor: int): (c: Choice)
    ensures c.FromQueue? ==> c.entry.floor == floor
  {
    if HasRecord(schedule, today, floor) then Existing
    else match QueuedRoom(queue, floor)
      case Some(e) => FromQueue(e)
      case None =>
        var fr := FloorRooms(rooms, floor);
        var n := TotalWeight(fr);
        if n == 0 then NoRooms else FromRotation(Slot(fr, RotationIndex(dayOfYear, floor, n)))
  }

  /** The staged schedule (the inserts on `conn`), the queue (each pop is
      committed on its own connection) and the floor that raised, if any. */
  datatype Run = Run(staged: seq<DutyRecord>, queue: seq<QueueEntry>, failedAt: Option<int>)

  /** The schedule after one floor: the inserted row, if the choice makes one. */
  function StepSchedule(schedule: seq<DutyRecord>, c: Choice, today: Date, floor: int): seq<DutyRecord> {
    match c
      case FromQueue(e) => schedule + [NewRecord(today, floor, e.room)]
      case FromRotation(room) => schedule + [NewRecord(today, floor, room)]
      case _ => schedule
  }

  /** The queue after one floor: clear_duty_queue of the served entry's room. */
  function StepQueue(queue: seq<QueueEntry>, c: Choice, floor: int): seq<QueueEntry> {
    if c.FromQueue? then RemoveFirst(queue, floor, c.entry.room) else queue
  }

  lemma StepScheduleAppends(schedule: seq<DutyRecord>, c: Choice, today: Date, floor: int)
    ensures StepSchedule(schedule, c, today, floor) == schedule + StepSchedule([], c, today, floor)
  {
  }

  /** The loop `for floor in range(floor, 10)` of generate_duty_schedule. */
  function Generate(rooms: seq<Room>, schedule: seq<DutyRecord>, queue: seq<QueueEntry>, today: Date, dayOfYear: int, floor: int): (run: Run)
    requires 2 <= floor <= 10
    decreases 10 - floor
    ensures run.failedAt.Some? ==> floor <= run.failedAt.value < 10
  {
    if floor == 10 then Run(schedule, queue, None)
    else
      var c := Choose(rooms, schedule, queue, today, dayOfYear, floor);
      if c.NoRooms? then Run(schedule, queue, Some(floor))
      else Generate(rooms, StepSchedule(schedule, c, today, floor), StepQueue(queue, c, floor), today, dayOfYear, floor + 1)
  }

  /** generate_duty_schedule: one pending record per floor 2..9 that has
      none for today. When a floor has an empty duty sequence the
      exception discards the uncommitted inserts, so the schedule is left
      as it was, while the queue pops of the earlier floors stay. */
  method GenerateDutySchedule(store: Store, today: Date) returns (ok: bool)
    requires store.Valid() && ValidDate(today)
    modifies store
    ensures store.Valid()
    ensures var run := Generate(old(store.rooms), old(store.schedule), old(store.queue), today, DayOfYear(today), 2);
      && ok == run.failedAt.None?
      && store.schedule == (if ok then run.staged else old(store.schedule))
      && store.queue == run.queue
    ensures store.rooms == old(store.rooms) && store.nextQueueId == old(store.nextQueueId)
    ensures store.attendance == old(store.attendance) && store.penalties == old(store.penalties)
    ensures store.supervisors == old(store.supervisors)
  {
    var staged := store.schedule;
    var dayOfYear := DayOfYear(today);
    ghost var run := Generate(store.rooms, store.schedule, store.queue, today, dayOfYear, 2);
    for floor := 2 to 10
      invariant store.Valid() && OnePerDay(staged)
      invariant run == Generate(store.rooms, staged, store.queue, today, dayOfYear, floor)
      invariant store.schedule == old(store.schedule)
      invariant store.rooms == old(store.rooms) && store.nextQueueId == old(store.nextQueueId)
      invariant store.attendance == old(store.attendance) && store.penalties == old(store.penalties)
      invariant store.supervisors == old(store.supervisors)
    {
      GenerateStep(store.rooms, staged, store.queue, today, dayOfYear, floor);
      var failed;
      staged, failed := ServeFloor(store, staged, today, dayOfYear, floor);
      if failed {
        return false;
      }
    }
    store.schedule := staged;
    ok := true;
  }

  /** The body of the loop for one floor: the staged schedule gains the
      floor's row unless it has one; `failed` where `% 0` would raise. */
  method ServeFloor(store: Store, staged: seq<DutyRecord>, today: Date, dayOfYear: int, floor: int)
    returns (staged': seq<DutyRecord>, failed: bool)
    requires store.Valid() && OnePerDay(staged)
    modifies store
    ensures store.Valid() && OnePerDay(staged')
    ensures var c := Choose(old(store.rooms), staged, old(store.queue), today, dayOfYear, floor);
      && failed == c.NoRooms?
      && staged' == StepSchedule(staged, c, today, floor)
      && store.queue == StepQueue(old(store.queue), c, floor)
    ensures store.schedule == old(store.schedule)
    ensures store.rooms == old(store.rooms) && store.nextQueueId == old(store.nextQueueId)
    ensures store.attendance == old(store.attendance) && store.penalties == old(store.penalties)
    ensures store.supervisors == old(store.supervisors)
  {
    ghost var choice := Choose(store.rooms, staged, store.queue, today, dayOfYear, floor);
    staged', failed := staged, false;
    if HasRecord(staged, today, floor) {
      assert choice == Existing;
      return;
    }
    var queued := QueuedRoom(store.queue, floor);
    var room: int;
    if queued.Some? {
      assert choice == FromQueue(queued.value);
      room := queued.value.room;
      store.ClearDutyQueue(floor, room);
    } else {
      var s := BuildDutySequence(FloorRooms(store.rooms, floor));
      if |s| == 0 {
        assert choice == NoRooms;
        return staged, true;
      }
      room := s[RotationIndex(dayOfYear, floor, |s|)];
      SlotInDutySequence(FloorRooms(store.rooms, floor), RotationIndex(dayOfYear, floor, |s|));
      assert choice == FromRotation(room);
    }
    AppendKeepsOnePerDay(staged, NewRecord(today, floor, room));
    staged' := staged + [NewRecord(today, floor, room)];
  }

  /** Adding a record for a (date, floor) that has none keeps one record per day. */
  lemma AppendKeepsOnePerDay(schedule: seq<DutyRecord>, rec: DutyRecord)
    requires OnePerDay(schedule) && !HasRecord(schedule, rec.date, rec.floor)
    ensures OnePerDay(schedule + [rec])
    ensures HasRecord(schedule + [rec], rec.date, rec.floor)
  {
    var s := schedule + [rec];
    assert s[|schedule|] == rec;
    HasRecordAt(schedule, rec.date, rec.floor);
    forall i, j | 0 <= i < j < |s|
      ensures !(s[i].date == s[j].date && s[i].floor == s[j].floor)
    {
      if j == |schedule| {
        assert s[i] == schedule[i];
      }
    }
  }

  // ---------------------------------------------------------------- the run, floor by floor

  /** The records a run from `floor` adds, each as chosen on the tables the run started from. */
  function Planned(rooms: seq<Room>, schedule: seq<DutyRecord>, queue: seq<QueueEntry>, today: Date, dayOfYear: int, floor: int): seq<DutyRecord>
    requires 2 <= floor <= 10
    decreases 10 - floor
  {
    if floor == 10 then []
    else StepSchedule([], Choose(rooms, schedule, queue, today, dayOfYear, floor), today, floor)
         + Planned(rooms, schedule, queue, today, dayOfYear, floor + 1)
  }

  /** The first floor from `floor` on that has neither a record nor a
      queued room and whose duty sequence is empty. */
  function FirstEmptyFloor(rooms: seq<Room>, schedule: seq<DutyRecord>, queue: seq<QueueEntry>, today: Date, dayOfYear: int, floor: int): Option<int>
    requires 2 <= floor <= 10
    decreases 10 - floor
  {
    if floor == 10 then None
    else if Choose(rooms, schedule, queue, today, dayOfYear, floor).NoRooms? then Some(floor)
    else FirstEmptyFloor(rooms, schedule, queue, today, dayOfYear, floor + 1)
  }

  /** One step of the search: the floor itself, or the search from the next floor. */
  lemma FirstEmptyFloorStep(rooms: seq<Room>, schedule: seq<DutyRecord>, queue: seq<QueueEntry>, today: Date, dayOfYear: int, floor: int)
    requires 2 <= floor < 10
    ensures FirstEmptyFloor(rooms, schedule, queue, today, dayOfYear, floor) ==
      if Choose(rooms, schedule, queue, today, dayOfYear, floor).NoRooms? then Some(floor)
      else FirstEmptyFloor(rooms, schedule, queue, today, dayOfYear, floor + 1)
  {
  }

  /** When FirstEmptyFloor finds a floor, it is the least floor from
      `floor` on whose choice is NoRooms. */
  lemma {:induction false} FirstEmptyFloorFound(rooms: seq<Room>, schedule: seq<DutyRecord>, queue: seq<QueueEntry>, today: Date, dayOfYear: int, floor: int)
    requires 2 <= floor <= 10
    decreases 10 - floor
    ensures var r := FirstEmptyFloor(rooms, schedule, queue, today, dayOfYear, floor);
      r.Some? ==>
        && floor <= r.value < 10 && Choose(rooms, schedule, queue, today, dayOfYear, r.value).NoRooms?
        && forall g :: floor <= g < r.value ==> !Choose(rooms, schedule, queue, today, dayOfYear, g).NoRooms?
  {
    if floor < 10 {
      FirstEmptyFloorStep(rooms, schedule, queue, today, dayOfYear, floor);
      var here := Choose(rooms, schedule, queue, today, dayOfYear, floor);
      if !here.NoRooms? {
        FirstEmptyFloorFound(rooms, schedule, queue, today, dayOfYear, floor + 1);
        var r := FirstEmptyFloor(rooms, schedule, queue, today, dayOfYear, floor + 1);
        if r.Some? {
          forall g | floor <= g < r.value
            ensures !Choose(rooms, schedule, queue, today, dayOfYear, g).NoRooms?
          {
            if g == floor {
              assert Choose(rooms, schedule, queue, today, dayOfYear, g) == here;
            }
          }
        }
      }
    }
  }

  /** FirstEmptyFloor finds nothing exactly when no floor from `floor` on
      has the choice NoRooms. */
  lemma {:induction false} FirstEmptyFloorNone(rooms: seq<Room>, schedule: seq<DutyRecord>, queue: seq<QueueEntry>, today: Date, dayOfYear: int, floor: int)
    requires 2 <= floor <= 10
    decreases 10 - floor
    ensures FirstEmptyFloor(rooms, schedule, queue, today, dayOfYear, floor).None? <==>
      forall g :: floor <= g < 10 ==> !Choose(rooms, schedule, queue, today, dayOfYear, g).NoRooms?
  {
    if floor < 10 {
      FirstEmptyFloorStep(rooms, schedule, queue, today, dayOfYear, floor);
      var here := Choose(rooms, schedule, queue, today, dayOfYear, floor);
      if here.NoRooms? {
        assert !forall g :: floor <= g < 10 ==> !Choose(rooms, schedule, queue, today, dayOfYear, g).NoRooms?;
      } else {
        FirstEmptyFloorNone(rooms, schedule, queue, today, dayOfYear, floor + 1);
        if FirstEmptyFloor(rooms, schedule, queue, today, dayOfYear, floor + 1).None? {
          forall g | floor <= g < 10
            ensures !Choose(rooms, schedule, queue, today, dayOfYear, g).NoRooms?
          {
            if g == floor {
              assert Choose(rooms, schedule, queue, today, dayOfYear, g) == here;
            }
          }
        }
      }
    }
  }


  /** A record of another floor does not change this floor's choice. */
  lemma ChooseAfterInsert(rooms: seq<Room>, schedule: seq<DutyRecord>, queue: seq<QueueEntry>, today: Date, dayOfYear: int, rec: DutyRecord, g: int)
    requires rec.floor != g
    ensures Choose(rooms, schedule + [rec], queue, today, dayOfYear, g) == Choose(rooms, schedule, queue, today, dayOfYear, g)
  {
    var s := schedule + [rec];
    assert s[..|s| - 1] == schedule;
  }

  /** Popping another floor's queued room does not change this floor's choice. */
  lemma ChooseAfterPop(rooms: seq<Room>, schedule: seq<DutyRecord>, queue: seq<QueueEntry>, today: Date, dayOfYear: int, f: int, room: int, g: int)
    requires f != g
    ensures Choose(rooms, schedule, RemoveFirst(queue, f, room), today, dayOfYear, g) == Choose(rooms, schedule, queue, today, dayOfYear, g)
  {
    RemoveFirstOtherFloor(queue, f, room, g);
    QueuedRoomIsHead(queue, g);
    QueuedRoomIsHead(RemoveFirst(queue, f, room), g);
  }

  /** Planned records depend on the tables only through the choices. */
  lemma {:induction false} PlannedByChoices(rooms: seq<Room>, s1: seq<DutyRecord>, q1: seq<QueueEntry>,
                                            s2: seq<DutyRecord>, q2: seq<QueueEntry>, today: Date, dayOfYear: int, floor: int)
    requires 2 <= floor <= 10
    requires forall g :: floor <= g < 10 ==> Choose(rooms, s2, q2, today, dayOfYear, g) == Choose(rooms, s1, q1, today, dayOfYear, g)
    ensures Planned(rooms, s2, q2, today, dayOfYear, floor) == Planned(rooms, s1, q1, today, dayOfYear, floor)
    decreases 10 - floor
  {
    if floor < 10 {
      PlannedByChoices(rooms, s1, q1, s2, q2, today, dayOfYear, floor + 1);
    }
  }

  /** So does the failing floor. */
  lemma {:induction false} FirstEmptyByChoices(rooms: seq<Room>, s1: seq<DutyRecord>, q1: seq<QueueEntry>,
                                               s2: seq<DutyRecord>, q2: seq<QueueEntry>, today: Date, dayOfYear: int, floor: int)
    requires 2 <= floor <= 10
    requires forall g :: floor <= g < 10 ==> Choose(rooms, s2, q2, today, dayOfYear, g) == Choose(rooms, s1, q1, today, dayOfYear, g)
    ensures FirstEmptyFloor(rooms, s2, q2, today, dayOfYear, floor) == FirstEmptyFloor(rooms, s1, q1, today, dayOfYear, floor)
    decreases 10 - floor
  {
    if floor < 10 {
      FirstEmptyByChoices(rooms, s1, q1, s2, q2, today, dayOfYear, floor + 1);
    }
  }

  /** One floor's step changes no other floor's choice. */
  lemma ChooseAfterStep(rooms: seq<Room>, schedule: seq<DutyRecord>, queue: seq<QueueEntry>, today: Date, dayOfYear: int,
                        f: int, c: Choice, g: int)
    requires f != g
    ensures Choose(rooms, StepSchedule(schedule, c, today, f), StepQueue(queue, c, f), today, dayOfYear, g)
         == Choose(rooms, schedule, queue, today, dayOfYear, g)
  {
    var q2 := StepQueue(queue, c, f);
    if c.FromQueue? {
      ChooseAfterPop(rooms, schedule, queue, today, dayOfYear, f, c.entry.room, g);
    }
    if c.FromQueue? || c.FromRotation? {
      var room := if c.FromQueue? then c.entry.room else c.room;
      ChooseAfterInsert(rooms, schedule, q2, today, dayOfYear, NewRecord(today, f, room), g);
    }
  }

  /** After a step at `f`, the choices of the floors above are those on the starting tables. */
  lemma ChoicesAfterStep(rooms: seq<Room>, schedule: seq<DutyRecord>, queue: seq<QueueEntry>, today: Date, dayOfYear: int, f: int, c: Choice)
    ensures forall g :: f < g < 10 ==>
      Choose(rooms, StepSchedule(schedule, c, today, f), StepQueue(queue, c, f), today, dayOfYear, g)
      == Choose(rooms, schedule, queue, today, dayOfYear, g)
  {
    forall g | f < g < 10
      ensures Choose(rooms, StepSchedule(schedule, c, today, f), StepQueue(queue, c, f), today, dayOfYear, g)
           == Choose(rooms, schedule, queue, today, dayOfYear, g)
    {
      ChooseAfterStep(rooms, schedule, queue, today, dayOfYear, f, c, g);
    }
  }

  /** The run fails exactly at the first floor that has neither a record,
      nor a queued room, nor a non-empty duty sequence. */
  lemma {:induction false} GenerateFailsAt(rooms: seq<Room>, schedule: seq<DutyRecord>, queue: seq<QueueEntry>, today: Date, dayOfYear: int, floor: int)
    requires 2 <= floor <= 10
    decreases 10 - floor
    ensures Generate(rooms, schedule, queue, today, dayOfYear, floor).failedAt
         == FirstEmptyFloor(rooms, schedule, queue, today, dayOfYear, floor)
  {
    if floor < 10 {
      var c := Choose(rooms, schedule, queue, today, dayOfYear, floor);
      if !c.NoRooms? {
        var s2, q2 := StepSchedule(schedule, c, today, floor), StepQueue(queue, c, floor);
        GenerateFailsAt(rooms, s2, q2, today, dayOfYear, floor + 1);
        ChoicesAfterStep(rooms, schedule, queue, today, dayOfYear, floor, c);
        FirstEmptyByChoices(rooms, schedule, queue, s2, q2, today, dayOfYear, floor + 1);
      }
    }
  }

  /** A run that does not fail stages the starting schedule followed by
      the planned records. */
  lemma {:induction false} GenerateStages(rooms: seq<Room>, schedule: seq<DutyRecord>, queue: seq<QueueEntry>, today: Date, dayOfYear: int, floor: int)
    requires 2 <= floor <= 10
    decreases 10 - floor
    ensures var run := Generate(rooms, schedule, queue, today, dayOfYear, floor);
      run.failedAt.None? ==> run.staged == schedule + Planned(rooms, schedule, queue, today, dayOfYear, floor)
  {
    if floor < 10 {
      var c := Choose(rooms, schedule, queue, today, dayOfYear, floor);
      GenerateStep(rooms, schedule, queue, today, dayOfYear, floor);
      if !c.NoRooms? {
        var s2, q2 := StepSchedule(schedule, c, today, floor), StepQueue(queue, c, floor);
        GenerateStages(rooms, s2, q2, today, dayOfYear, floor + 1);
        PlannedAfterStep(rooms, schedule, queue, today, dayOfYear, floor);
      }
    }
  }

  /** One floor's step changes none of the rows planned for the floors above it. */
  lemma PlannedAfterOtherStep(rooms: seq<Room>, schedule: seq<DutyRecord>, queue: seq<QueueEntry>, today: Date, dayOfYear: int, floor: int, c: Choice)
    requires 2 <= floor < 10
    ensures Planned(rooms, StepSchedule(schedule, c, today, floor), StepQueue(queue, c, floor), today, dayOfYear, floor + 1)
         == Planned(rooms, schedule, queue, today, dayOfYear, floor + 1)
  {
    ChoicesAfterStep(rooms, schedule, queue, today, dayOfYear, floor, c);
    PlannedByChoices(rooms, schedule, queue, StepSchedule(schedule, c, today, floor), StepQueue(queue, c, floor), today, dayOfYear, floor + 1);
  }

  /** The rows planned on the tables after one floor's step, appended to
      that step's schedule, are the rows planned from that floor on the
      original tables, appended to the original schedule. */
  lemma PlannedAfterStep(rooms: seq<Room>, schedule: seq<DutyRecord>, queue: seq<QueueEntry>, today: Date, dayOfYear: int, floor: int)
    requires 2 <= floor < 10
    ensures var c := Choose(rooms, schedule, queue, today, dayOfYear, floor);
      StepSchedule(schedule, c, today, floor) + Planned(rooms, StepSchedule(schedule, c, today, floor), StepQueue(queue, c, floor), today, dayOfYear, floor + 1)
      == schedule + Planned(rooms, schedule, queue, today, dayOfYear, floor)
  {
    var c := Choose(rooms, schedule, queue, today, dayOfYear, floor);
    PlannedAfterOtherStep(rooms, schedule, queue, today, dayOfYear, floor, c);
    StepScheduleAppends(schedule, c, today, floor);
    PlannedStep(rooms, schedule, queue, today, dayOfYear, floor);
    AppendRegroup(schedule, StepSchedule([], c, today, floor), Planned(rooms, schedule, queue, today, dayOfYear, floor + 1));
  }

  /** Concatenation regroups: (a + b) + c is a + (b + c). */
  lemma AppendRegroup(a: seq<DutyRecord>, b: seq<DutyRecord>, c: seq<DutyRecord>)
    ensures (a + b) + c == a + (b + c)
  {
  }

  /** One floor's share of the planned rows: its own row, if its choice makes one, then the rest. */
  lemma PlannedStep(rooms: seq<Room>, schedule: seq<DutyRecord>, queue: seq<QueueEntry>, today: Date, dayOfYear: int, floor: int)
    requires 2 <= floor < 10
    ensures Planned(rooms, schedule, queue, today, dayOfYear, floor)
         == StepSchedule([], Choose(rooms, schedule, queue, today, dayOfYear, floor), today, floor)
            + Planned(rooms, schedule, queue, today, dayOfYear, floor + 1)
  {
  }

  /** One floor of the run: it stops on an empty duty sequence, and
      otherwise goes on to the next floor with the row and the pop made. */
  lemma GenerateStep(rooms: seq<Room>, schedule: seq<DutyRecord>, queue: seq<QueueEntry>, today: Date, dayOfYear: int, floor: int)
    requires 2 <= floor < 10
    ensures var c := Choose(rooms, schedule, queue, today, dayOfYear, floor);
      Generate(rooms, schedule, queue, today, dayOfYear, floor) ==
        if c.NoRooms? then Run(schedule, queue, Some(floor))
        else Generate(rooms, StepSchedule(schedule, c, today, floor), StepQueue(queue, c, floor), today, dayOfYear, floor + 1)
  {
  }

  /** One floor's step pops the head of that floor's entries when its
      choice is the queue, and leaves every other floor's entries alone. */
  lemma StepQueueEntries(rooms: seq<Room>, schedule: seq<DutyRecord>, queue: seq<QueueEntry>, today: Date, dayOfYear: int, floor: int, g: int)
    ensures Choose(rooms, schedule, queue, today, dayOfYear, floor).FromQueue? ==> EntriesOf(queue, floor) != []
    ensures var c := Choose(rooms, schedule, queue, today, dayOfYear, floor);
      EntriesOf(StepQueue(queue, c, floor), g) ==
        if g == floor && c.FromQueue? then EntriesOf(queue, g)[1..] else EntriesOf(queue, g)
  {
    var c := Choose(rooms, schedule, queue, today, dayOfYear, floor);
    if c.FromQueue? {
      QueuedRoomIsHead(queue, floor);
      if g == floor {
        RemoveFirstPopsHead(queue, floor);
      } else {
        RemoveFirstOtherFloor(queue, floor, c.entry.room, g);
      }
    }
  }

  /** A floor the run passed whose choice was the queue has lost its
      oldest entry, also when the run fails on a later floor. */
  lemma {:induction false} GenerateQueueServed(rooms: seq<Room>, schedule: seq<DutyRecord>, queue: seq<QueueEntry>, today: Date, dayOfYear: int, floor: int, g: int)
    requires 2 <= floor <= g < 10
    requires Choose(rooms, schedule, queue, today, dayOfYear, g).FromQueue?
    requires Generate(rooms, schedule, queue, today, dayOfYear, floor).failedAt.None?
          || g < Generate(rooms, schedule, queue, today, dayOfYear, floor).failedAt.value
    decreases 10 - floor
    ensures EntriesOf(queue, g) != []
    ensures EntriesOf(Generate(rooms, schedule, queue, today, dayOfYear, floor).queue, g) == EntriesOf(queue, g)[1..]
  {
    var c := Choose(rooms, schedule, queue, today, dayOfYear, floor);
    var s2, q2 := StepSchedule(schedule, c, today, floor), StepQueue(queue, c, floor);
    ServedFloorStep(rooms, schedule, queue, today, dayOfYear, floor, g);
    StepQueueEntries(rooms, schedule, queue, today, dayOfYear, floor, g);
    if g == floor {
      GenerateQueueUntouched(rooms, s2, q2, today, dayOfYear, floor + 1, g);
    } else {
      ChooseAfterStep(rooms, schedule, queue, today, dayOfYear, floor, c, g);
      GenerateQueueServed(rooms, s2, q2, today, dayOfYear, floor + 1, g);
    }
  }


  /** A run that gets past floor `g` does not stop at any floor up to `g`,
      so from such a floor it goes on with that floor's step made. */
  lemma ServedFloorStep(rooms: seq<Room>, schedule: seq<DutyRecord>, queue: seq<QueueEntry>, today: Date, dayOfYear: int, floor: int, g: int)
    requires 2 <= floor <= g < 10
    requires Choose(rooms, schedule, queue, today, dayOfYear, g).FromQueue?
    requires Generate(rooms, schedule, queue, today, dayOfYear, floor).failedAt.None?
          || g < Generate(rooms, schedule, queue, today, dayOfYear, floor).failedAt.value
    ensures var c := Choose(rooms, schedule, queue, today, dayOfYear, floor);
      && !c.NoRooms?
      && Generate(rooms, schedule, queue, today, dayOfYear, floor)
         == Generate(rooms, StepSchedule(schedule, c, today, floor), StepQueue(queue, c, floor), today, dayOfYear, floor + 1)
  {
    GenerateStep(rooms, schedule, queue, today, dayOfYear, floor);
  }

  /** Every other floor's entries are as they were: floors below the
      start, floors the run did not reach, and floors not served from the queue. */
  lemma {:induction false} GenerateQueueUntouched(rooms: seq<Room>, schedule: seq<DutyRecord>, queue: seq<QueueEntry>, today: Date, dayOfYear: int, floor: int, g: int)
    requires 2 <= floor <= 10
    requires || !(floor <= g < 10)
             || (Generate(rooms, schedule, queue, today, dayOfYear, floor).failedAt.Some?
                 && Generate(rooms, schedule, queue, today, dayOfYear, floor).failedAt.value <= g)
             || !Choose(rooms, schedule, queue, today, dayOfYear, g).FromQueue?
    decreases 10 - floor
    ensures EntriesOf(Generate(rooms, schedule, queue, today, dayOfYear, floor).queue, g) == EntriesOf(queue, g)
  {
    if floor < 10 {
      var c := Choose(rooms, schedule, queue, today, dayOfYear, floor);
      GenerateStep(rooms, schedule, queue, today, dayOfYear, floor);
      if !c.NoRooms? {
        var s2, q2 := StepSchedule(schedule, c, today, floor), StepQueue(queue, c, floor);
        StepQueueEntries(rooms, schedule, queue, today, dayOfYear, floor, g);
        if floor < g {
          ChooseAfterStep(rooms, schedule, queue, today, dayOfYear, floor, c, g);
        }
        GenerateQueueUntouched(rooms, s2, q2, today, dayOfYear, floor + 1, g);
      }
    }
  }

  /** The room a choice puts in the new row, if it makes one. */
  function RoomOf(c: Choice): Option<int> {
    match c
      case FromQueue(e) => Some(e.room)
      case FromRotation(room) => Some(room)
      case _ => None
  }

  /** The rows a sequence of choices makes, `cs[k]` being the choice for floor `floor + k`. */
  function Rows(cs: seq<Choice>, today: Date, floor: int): seq<DutyRecord>
    decreases |cs|
  {
    if cs == [] then [] else StepSchedule([], cs[0], today, floor) + Rows(cs[1..], today, floor + 1)
  }

  /** The choices of floors `floor`..9, each on the tables the run started from. */
  function ChoicesFrom(rooms: seq<Room>, schedule: seq<DutyRecord>, queue: seq<QueueEntry>, today: Date, dayOfYear: int, floor: int): (cs: seq<Choice>)
    requires 2 <= floor <= 10
    decreases 10 - floor
    ensures |cs| == 10 - floor
  {
    if floor == 10 then []
    else [Choose(rooms, schedule, queue, today, dayOfYear, floor)] + ChoicesFrom(rooms, schedule, queue, today, dayOfYear, floor + 1)
  }

  /** Entry `g - floor` of the choices is floor `g`'s choice. */
  lemma ChoicesFromAt(rooms: seq<Room>, schedule: seq<DutyRecord>, queue: seq<QueueEntry>, today: Date, dayOfYear: int, floor: int, g: int)
    requires 2 <= floor <= g < 10
    ensures ChoicesFrom(rooms, schedule, queue, today, dayOfYear, floor)[g - floor] == Choose(rooms, schedule, queue, today, dayOfYear, g)
  {
    ChoicesFromShift(rooms, schedule, queue, today, dayOfYear, floor, g);
    ChoicesFromHead(rooms, schedule, queue, today, dayOfYear, g);
  }

  /** Entry `g - floor` of the choices from `floor` heads the choices from `g`. */
  lemma {:induction false} ChoicesFromShift(rooms: seq<Room>, schedule: seq<DutyRecord>, queue: seq<QueueEntry>, today: Date, dayOfYear: int, floor: int, g: int)
    requires 2 <= floor <= g < 10
    decreases g - floor
    ensures ChoicesFrom(rooms, schedule, queue, today, dayOfYear, floor)[g - floor] == ChoicesFrom(rooms, schedule, queue, today, dayOfYear, g)[0]
  {
    if g > floor {
      var cs := ChoicesFrom(rooms, schedule, queue, today, dayOfYear, floor);
      ChoicesFromTail(rooms, schedule, queue, today, dayOfYear, floor);
      ChoicesFromShift(rooms, schedule, queue, today, dayOfYear, floor + 1, g);
      assert cs[g - floor] == cs[1..][g - (floor + 1)];
    }
  }

  lemma ChoicesFromHead(rooms: seq<Room>, schedule: seq<DutyRecord>, queue: seq<QueueEntry>, today: Date, dayOfYear: int, floor: int)
    requires 2 <= floor < 10
    ensures ChoicesFrom(rooms, schedule, queue, today, dayOfYear, floor)[0] == Choose(rooms, schedule, queue, today, dayOfYear, floor)
  {
  }

  lemma ChoicesFromTail(rooms: seq<Room>, schedule: seq<DutyRecord>, queue: seq<QueueEntry>, today: Date, dayOfYear: int, floor: int)
    requires 2 <= floor < 10
    ensures ChoicesFrom(rooms, schedule, queue, today, dayOfYear, floor)[1..] == ChoicesFrom(rooms, schedule, queue, today, dayOfYear, floor + 1)
  {
  }

  lemma {:induction false} PlannedIsRows(rooms: seq<Room>, schedule: seq<DutyRecord>, queue: seq<QueueEntry>, today: Date, dayOfYear: int, floor: int)
    requires 2 <= floor <= 10
    decreases 10 - floor
    ensures Planned(rooms, schedule, queue, today, dayOfYear, floor) == Rows(ChoicesFrom(rooms, schedule, queue, today, dayOfYear, floor), today, floor)
  {
    if floor < 10 {
      PlannedIsRows(rooms, schedule, queue, today, dayOfYear, floor + 1);
      var cs := ChoicesFrom(rooms, schedule, queue, today, dayOfYear, floor);
      assert cs[1..] == ChoicesFrom(rooms, schedule, queue, today, dayOfYear, floor + 1);
    }
  }

  /** The row one choice makes: one new pending row exactly when the choice names a room. */
  lemma StepRow(c: Choice, today: Date, floor: int)
    ensures StepSchedule([], c, today, floor) ==
      if RoomOf(c).Some? then [NewRecord(today, floor, RoomOf(c).value)] else []
  {
  }

  /** Every row of `p` is a pending, unconfirmed row of today, for a floor
      `floor + k` whose choice `cs[k]` names a room, holding that room. */
  predicate RowsFollow(p: seq<DutyRecord>, cs: seq<Choice>, today: Date, floor: int) {
    forall i :: 0 <= i < |p| ==> RowFollows(p[i], cs, today, floor)
  }

  predicate RowFollows(r: DutyRecord, cs: seq<Choice>, today: Date, floor: int) {
    && r.date == today && r.status == Pending
    && r.confirmedBy.None? && r.confirmedAt.None?
    && floor <= r.floor < floor + |cs|
    && r.room.Some? && r.room == RoomOf(cs[r.floor - floor])
  }

  /** Floors strictly ascend along `p`, so no floor has two rows. */
  predicate FloorsAscend(p: seq<DutyRecord>) {
    forall i, j :: 0 <= i < j < |p| ==> p[i].floor < p[j].floor
  }

  /** Each floor `floor + k` whose choice names a room has a row in `p`. */
  predicate RowsCoverChoices(p: seq<DutyRecord>, cs: seq<Choice>, floor: int) {
    forall k :: 0 <= k < |cs| && RoomOf(cs[k]).Some? ==> exists i :: 0 <= i < |p| && p[i].floor == floor + k
  }

  lemma {:induction false} RowsShape(cs: seq<Choice>, today: Date, floor: int)
    decreases |cs|
    ensures RowsFollow(Rows(cs, today, floor), cs, today, floor)
  {
    if cs != [] {
      var rest := cs[1..];
      var tail := Rows(rest, today, floor + 1);
      RowsShape(rest, today, floor + 1);
      StepRow(cs[0], today, floor);
      var head := StepSchedule([], cs[0], today, floor);
      var p := Rows(cs, today, floor);
      assert p == head + tail;
      forall i | 0 <= i < |p|
        ensures RowFollows(p[i], cs, today, floor)
      {
        if i < |head| {
          assert p[i] == head[0];
        } else {
          var r := tail[i - |head|];
          assert p[i] == r;
          assert RowFollows(r, rest, today, floor + 1);
          assert rest[r.floor - (floor + 1)] == cs[r.floor - floor];
        }
      }
    }
  }

  lemma {:induction false} RowsAscending(cs: seq<Choice>, today: Date, floor: int)
    decreases |cs|
    ensures FloorsAscend(Rows(cs, today, floor))
  {
    if cs != [] {
      var tail := Rows(cs[1..], today, floor + 1);
      RowsAscending(cs[1..], today, floor + 1);
      RowsShape(cs[1..], today, floor + 1);
      StepRow(cs[0], today, floor);
      var head := StepSchedule([], cs[0], today, floor);
      var p := head + tail;
      assert p == Rows(cs, today, floor);
      forall i, j | 0 <= i < j < |p|
        ensures p[i].floor < p[j].floor
      {
        assert p[j] == tail[j - |head|];
        if i >= |head| {
          assert p[i] == tail[i - |head|];
        }
      }
    }
  }

  lemma {:induction false} RowsCover(cs: seq<Choice>, today: Date, floor: int)
    decreases |cs|
    ensures RowsCoverChoices(Rows(cs, today, floor), cs, floor)
  {
    if cs != [] {
      var tail := Rows(cs[1..], today, floor + 1);
      RowsCover(cs[1..], today, floor + 1);
      StepRow(cs[0], today, floor);
      var head := StepSchedule([], cs[0], today, floor);
      var p := head + tail;
      assert p == Rows(cs, today, floor);
      forall k | 0 <= k < |cs| && RoomOf(cs[k]).Some?
        ensures exists i :: 0 <= i < |p| && p[i].floor == floor + k
      {
        if k == 0 {
          assert p[0].floor == floor;
        } else {
          assert cs[1..][k - 1] == cs[k];
          var i :| 0 <= i < |tail| && tail[i].floor == floor + 1 + (k - 1);
          assert p[|head| + i] == tail[i];
        }
      }
    }
  }

  /** Every record of `p` is a pending, unconfirmed row of today, for a
      floor from `floor` on that had none, holding the room its choice names. */
  predicate PlannedRowsFollow(p: seq<DutyRecord>, rooms: seq<Room>, schedule: seq<DutyRecord>, queue: seq<QueueEntry>, today: Date, dayOfYear: int, floor: int) {
    forall i :: 0 <= i < |p| ==>
      && p[i].date == today && p[i].status == Pending
      && p[i].confirmedBy.None? && p[i].confirmedAt.None?
      && floor <= p[i].floor < 10 && !HasRecord(schedule, today, p[i].floor)
      && p[i].room.Some? && p[i].room == RoomOf(Choose(rooms, schedule, queue, today, dayOfYear, p[i].floor))
  }

  /** Every floor from `floor` on whose choice names a room has a record in `p`. */
  predicate PlannedCoverFloors(p: seq<DutyRecord>, rooms: seq<Room>, schedule: seq<DutyRecord>, queue: seq<QueueEntry>, today: Date, dayOfYear: int, floor: int) {
    forall g :: floor <= g < 10 && RoomOf(Choose(rooms, schedule, queue, today, dayOfYear, g)).Some? ==>
      exists i :: 0 <= i < |p| && p[i].floor == g
  }

  /** A choice that names a room is made only for a floor without a record. */
  lemma ChooseNamingRoom(rooms: seq<Room>, schedule: seq<DutyRecord>, queue: seq<QueueEntry>, today: Date, dayOfYear: int, g: int)
    ensures RoomOf(Choose(rooms, schedule, queue, today, dayOfYear, g)).Some? ==> !HasRecord(schedule, today, g)
  {
  }

  /** Row `i` of the rows of `cs` is a pending row of today, for a floor
      `g` in range, holding the room `cs[g - floor]` names. */
  lemma RowAt(cs: seq<Choice>, today: Date, floor: int, i: int)
    requires 0 <= i < |Rows(cs, today, floor)|
    ensures var r := Rows(cs, today, floor)[i];
      && r.date == today && r.status == Pending && r.confirmedBy.None? && r.confirmedAt.None?
      && floor <= r.floor < floor + |cs|
      && r.room.Some? && r.room == RoomOf(cs[r.floor - floor])
  {
    RowsShape(cs, today, floor);
  }

  /** Planned record `i` is a fresh pending row of a floor in range. */
  lemma PlannedRowShape(rooms: seq<Room>, schedule: seq<DutyRecord>, queue: seq<QueueEntry>, today: Date, dayOfYear: int, floor: int, i: int)
    requires 2 <= floor <= 10
    requires 0 <= i < |Planned(rooms, schedule, queue, today, dayOfYear, floor)|
    ensures var r := Planned(rooms, schedule, queue, today, dayOfYear, floor)[i];
      && r.date == today && r.status == Pending && r.confirmedBy.None? && r.confirmedAt.None?
      && floor <= r.floor < 10 && r.room.Some?
  {
    var cs := ChoicesFrom(rooms, schedule, queue, today, dayOfYear, floor);
    PlannedIsRows(rooms, schedule, queue, today, dayOfYear, floor);
    RowAt(cs, today, floor, i);
  }

  /** Planned record `i` holds the room its floor's choice names. */
  lemma {:induction false} PlannedRowRoom(rooms: seq<Room>, schedule: seq<DutyRecord>, queue: seq<QueueEntry>, today: Date, dayOfYear: int, floor: int, i: int)
    requires 2 <= floor <= 10
    requires 0 <= i < |Planned(rooms, schedule, queue, today, dayOfYear, floor)|
    decreases 10 - floor
    ensures var r := Planned(rooms, schedule, queue, today, dayOfYear, floor)[i];
      2 <= r.floor < 10 && r.room == RoomOf(Choose(rooms, schedule, queue, today, dayOfYear, r.floor))
  {
    var c := Choose(rooms, schedule, queue, today, dayOfYear, floor);
    var head := StepSchedule([], c, today, floor);
    var rest := Planned(rooms, schedule, queue, today, dayOfYear, floor + 1);
    assert Planned(rooms, schedule, queue, today, dayOfYear, floor) == head + rest;
    if i < |head| {
      assert (head + rest)[i] == NewRecord(today, floor, RoomOf(c).value);
    } else {
      PlannedRowRoom(rooms, schedule, queue, today, dayOfYear, floor + 1, i - |head|);
      assert (head + rest)[i] == rest[i - |head|];
    }
  }

  /** Planned record `i` is a pending row of a floor that had none,
      holding the room its floor's choice names. */
  lemma PlannedRowAt(rooms: seq<Room>, schedule: seq<DutyRecord>, queue: seq<QueueEntry>, today: Date, dayOfYear: int, floor: int, i: int)
    requires 2 <= floor <= 10
    requires 0 <= i < |Planned(rooms, schedule, queue, today, dayOfYear, floor)|
    ensures var r := Planned(rooms, schedule, queue, today, dayOfYear, floor)[i];
      && r.date == today && r.status == Pending && r.confirmedBy.None? && r.confirmedAt.None?
      && floor <= r.floor < 10 && !HasRecord(schedule, today, r.floor)
      && r.room.Some? && r.room == RoomOf(Choose(rooms, schedule, queue, today, dayOfYear, r.floor))
  {
    PlannedRowShape(rooms, schedule, queue, today, dayOfYear, floor, i);
    PlannedRowRoom(rooms, schedule, queue, today, dayOfYear, floor, i);
    var r := Planned(rooms, schedule, queue, today, dayOfYear, floor)[i];
    ChooseNamingRoom(rooms, schedule, queue, today, dayOfYear, r.floor);
  }

  /** The planned records are pending rows of the floors that had none,
      each holding the room its floor's choice names. */
  lemma PlannedRows(rooms: seq<Room>, schedule: seq<DutyRecord>, queue: seq<QueueEntry>, today: Date, dayOfYear: int, floor: int)
    requires 2 <= floor <= 10
    ensures PlannedRowsFollow(Planned(rooms, schedule, queue, today, dayOfYear, floor), rooms, schedule, queue, today, dayOfYear, floor)
  {
    var p := Planned(rooms, schedule, queue, today, dayOfYear, floor);
    forall i | 0 <= i < |p|
      ensures && p[i].date == today && p[i].status == Pending
              && p[i].confirmedBy.None? && p[i].confirmedAt.None?
              && floor <= p[i].floor < 10 && !HasRecord(schedule, today, p[i].floor)
              && p[i].room.Some? && p[i].room == RoomOf(Choose(rooms, schedule, queue, today, dayOfYear, p[i].floor))
    {
      PlannedRowAt(rooms, schedule, queue, today, dayOfYear, floor, i);
    }
  }

  /** Planned records come in ascending floor order, so at most one per floor. */
  lemma PlannedAscending(rooms: seq<Room>, schedule: seq<DutyRecord>, queue: seq<QueueEntry>, today: Date, dayOfYear: int, floor: int)
    requires 2 <= floor <= 10
    ensures FloorsAscend(Planned(rooms, schedule, queue, today, dayOfYear, floor))
  {
    PlannedIsRows(rooms, schedule, queue, today, dayOfYear, floor);
    RowsAscending(ChoicesFrom(rooms, schedule, queue, today, dayOfYear, floor), today, floor);
  }

  /** Every floor from `floor` on whose choice names a room has a planned record. */
  lemma PlannedCovers(rooms: seq<Room>, schedule: seq<DutyRecord>, queue: seq<QueueEntry>, today: Date, dayOfYear: int, floor: int)
    requires 2 <= floor <= 10
    ensures PlannedCoverFloors(Planned(rooms, schedule, queue, today, dayOfYear, floor), rooms, schedule, queue, today, dayOfYear, floor)
  {
    var cs := ChoicesFrom(rooms, schedule, queue, today, dayOfYear, floor);
    PlannedIsRows(rooms, schedule, queue, today, dayOfYear, floor);
    RowsCover(cs, today, floor);
    forall g | floor <= g < 10 && RoomOf(Choose(rooms, schedule, queue, today, dayOfYear, g)).Some?
      ensures RoomOf(cs[g - floor]).Some?
    {
      ChoicesFromAt(rooms, schedule, queue, today, dayOfYear, floor, g);
    }
  }

  /** Rows of today, pending, for floors 2..9 that have no record in `schedule`. */
  predicate FreshRows(p: seq<DutyRecord>, schedule: seq<DutyRecord>, today: Date) {
    forall i :: 0 <= i < |p| ==>
      && p[i].date == today && p[i].status == Pending
      && 2 <= p[i].floor < 10 && !HasRecord(schedule, today, p[i].floor)
  }

  /** `st` extends `schedule` with fresh rows only, keeps one record per
      (date, floor) and has a record for today on each floor 2..9. */
  ghost predicate CoversToday(st: seq<DutyRecord>, schedule: seq<DutyRecord>, today: Date) {
    && OnePerDay(st)
    && |schedule| <= |st| && st[..|schedule|] == schedule
    && FreshRows(st[|schedule|..], schedule, today)
    && forall g :: 2 <= g < 10 ==> HasRecord(st, today, g)
  }

  /** `p` has a row for every floor 2..9 that has no record for today in `schedule`. */
  predicate RowForEachUnrecorded(p: seq<DutyRecord>, schedule: seq<DutyRecord>, today: Date) {
    forall g :: 2 <= g < 10 && !HasRecord(schedule, today, g) ==> exists i :: 0 <= i < |p| && p[i].floor == g
  }

  /** Appending fresh rows, one per floor in ascending order, for every
      floor that had no record, covers today. */
  lemma AppendFreshRows(schedule: seq<DutyRecord>, p: seq<DutyRecord>, today: Date)
    requires OnePerDay(schedule) && FreshRows(p, schedule, today) && FloorsAscend(p)
    requires RowForEachUnrecorded(p, schedule, today)
    ensures CoversToday(schedule + p, schedule, today)
  {
    var st := schedule + p;
    assert st[..|schedule|] == schedule;
    assert st[|schedule|..] == p;
    forall g | 2 <= g < 10
      ensures HasRecord(st, today, g)
    {
      HasRecordAt(schedule, today, g);
      HasRecordAt(st, today, g);
      if HasRecord(schedule, today, g) {
        var i :| 0 <= i < |schedule| && schedule[i].date == today && schedule[i].floor == g;
        assert st[i] == schedule[i];
      } else {
        var i :| 0 <= i < |p| && p[i].floor == g;
        assert st[|schedule| + i] == p[i];
      }
    }
    forall i, j | 0 <= i < j < |st|
      ensures !(st[i].date == st[j].date && st[i].floor == st[j].floor)
    {
      if |schedule| <= i {
        assert st[i] == p[i - |schedule|] && st[j] == p[j - |schedule|];
      } else if |schedule| <= j {
        assert st[i] == schedule[i] && st[j] == p[j - |schedule|];
        if st[i].date == today {
          assert !HasRecord(schedule, today, st[j].floor);
          HasRecordAt(schedule, today, st[j].floor);
        }
      }
    }
  }

  /** A run that does not fail leaves exactly one record for today on each
      floor 2..9: the rows it found, and for the other floors one new
      pending row each, after the rows it found. */
  lemma GenerateCovers(rooms: seq<Room>, schedule: seq<DutyRecord>, queue: seq<QueueEntry>, today: Date, dayOfYear: int)
    requires OnePerDay(schedule)
    ensures Generate(rooms, schedule, queue, today, dayOfYear, 2).failedAt.None? ==>
      CoversToday(Generate(rooms, schedule, queue, today, dayOfYear, 2).staged, schedule, today)
  {
    var run := Generate(rooms, schedule, queue, today, dayOfYear, 2);
    if run.failedAt.None? {
      GenerateStages(rooms, schedule, queue, today, dayOfYear, 2);
      GenerateFailsAt(rooms, schedule, queue, today, dayOfYear, 2);
      FirstEmptyFloorNone(rooms, schedule, queue, today, dayOfYear, 2);
      PlannedRows(rooms, schedule, queue, today, dayOfYear, 2);
      PlannedAscending(rooms, schedule, queue, today, dayOfYear, 2);
      var p := Planned(rooms, schedule, queue, today, dayOfYear, 2);
      assert FreshRows(p, schedule, today);
      PlannedCoversUnrecorded(rooms, schedule, queue, today, dayOfYear);
      AppendFreshRows(schedule, p, today);
    }
  }

  /** With no floor lacking rooms, every floor 2..9 without a record gets a planned row. */
  lemma PlannedCoversUnrecorded(rooms: seq<Room>, schedule: seq<DutyRecord>, queue: seq<QueueEntry>, today: Date, dayOfYear: int)
    requires forall g :: 2 <= g < 10 ==> !Choose(rooms, schedule, queue, today, dayOfYear, g).NoRooms?
    ensures RowForEachUnrecorded(Planned(rooms, schedule, queue, today, dayOfYear, 2), schedule, today)
  {
    PlannedCovers(rooms, schedule, queue, today, dayOfYear, 2);
    var p := Planned(rooms, schedule, queue, today, dayOfYear, 2);
    forall g | 2 <= g < 10 && !HasRecord(schedule, today, g)
      ensures exists i :: 0 <= i < |p| && p[i].floor == g
    {
      ChooseNamesRoom(rooms, schedule, queue, today, dayOfYear, g);
    }
  }

  /** A floor without a record whose choice is not NoRooms is given a room. */
  lemma ChooseNamesRoom(rooms: seq<Room>, schedule: seq<DutyRecord>, queue: seq<QueueEntry>, today: Date, dayOfYear: int, g: int)
    requires !HasRecord(schedule, today, g)
    requires !Choose(rooms, schedule, queue, today, dayOfYear, g).NoRooms?
    ensures RoomOf(Choose(rooms, schedule, queue, today, dayOfYear, g)).Some?
  {
  }

  /** A run over a schedule that has a record for every floor from
      `floor` on changes nothing. */
  lemma {:induction false} GenerateAllExisting(rooms: seq<Room>, schedule: seq<DutyRecord>, queue: seq<QueueEntry>, today: Date, dayOfYear: int, floor: int)
    requires 2 <= floor <= 10
    requires forall g :: floor <= g < 10 ==> HasRecord(schedule, today, g)
    decreases 10 - floor
    ensures Generate(rooms, schedule, queue, today, dayOfYear, floor) == Run(schedule, queue, None)
  {
    if floor < 10 {
      assert HasRecord(schedule, today, floor);
      GenerateAllExisting(rooms, schedule, queue, today, dayOfYear, floor + 1);
    }
  }

  /** Running generation a second time on the same day changes nothing:
      no queue pop, no insert, no failure. */
  lemma GenerateIdempotent(rooms: seq<Room>, schedule: seq<DutyRecord>, queue: seq<QueueEntry>, today: Date, dayOfYear: int)
    requires OnePerDay(schedule)
    ensures var run := Generate(rooms, schedule, queue, today, dayOfYear, 2);
      run.failedAt.None? ==>
        Generate(rooms, run.staged, run.queue, today, dayOfYear, 2) == Run(run.staged, run.queue, None)
  {
    GenerateCovers(rooms, schedule, queue, today, dayOfYear);
    var run := Generate(rooms, schedule, queue, today, dayOfYear, 2);
    if run.failedAt.None? {
      GenerateAllExisting(rooms, run.staged, run.queue, today, dayOfYear, 2);
    }
  }

  /** What each choice means, in terms of the tables: an existing row wins,
      then the oldest queued entry of the floor, then the rotation slot,
      which is a room of the floor with at least one duty day; the floor
      fails only with no row, no queued entry and no duty slots. */
  lemma ChooseMeaning(rooms: seq<Room>, schedule: seq<DutyRecord>, queue: seq<QueueEntry>, nextId: nat, today: Date, dayOfYear: int, floor: int)
    requires QueueOrdered(queue, nextId)
    ensures var c := Choose(rooms, schedule, queue, today, dayOfYear, floor);
      && (c.Existing? <==> HasRecord(schedule, today, floor))
      && (c.FromQueue? <==> !HasRecord(schedule, today, floor) && EntriesOf(queue, floor) != [])
      && (c.FromQueue? ==> c.entry == EntriesOf(queue, floor)[0])
      && (c.FromQueue? ==> forall e :: e in queue && e.floor == floor ==> c.entry.id <= e.id)
      && (c.FromRotation? ==> exists r :: r in rooms && r.floor == floor && r.number == c.room && r.dutyDays > 0)
      && (c.NoRooms? <==>
            !HasRecord(schedule, today, floor) && EntriesOf(queue, floor) == [] && TotalWeight(FloorRooms(rooms, floor)) == 0)
  {
    QueuedRoomIsHead(queue, floor);
    QueuedRoomIsOldest(queue, nextId, floor);
    var c := Choose(rooms, schedule, queue, today, dayOfYear, floor);
    if c.FromRotation? {
      var fr := FloorRooms(rooms, floor);
      var ds := DutySequence(fr);
      SlotInDutySequence(fr, RotationIndex(dayOfYear, floor, |ds|));
      assert c.room in ds;
      var i := DutySlotRoom(fr, c.room);
      FloorRoomsMembers(rooms, floor);
      assert fr[i] in fr;
    }
  }

  /** The rotation branch picks `duty_sequence[(day_of_year + (floor - 2) * 3) % len]`
      of the floor's duty sequence, which is then non-empty. */
  lemma ChooseRotationRoom(rooms: seq<Room>, schedule: seq<DutyRecord>, queue: seq<QueueEntry>, today: Date, dayOfYear: int, floor: int)
    ensures var c := Choose(rooms, schedule, queue, today, dayOfYear, floor);
      var ds := DutySequence(FloorRooms(rooms, floor));
      c.FromRotation? ==> |ds| > 0 && c.room == ds[RotationIndex(dayOfYear, floor, |ds|)]
  {
    var fr := FloorRooms(rooms, floor);
    if TotalWeight(fr) > 0 {
      SlotInDutySequence(fr, RotationIndex(dayOfYear, floor, TotalWeight(fr)));
    }
  }

  /** The run fails exactly when some floor 2..9 has no record for today,
      no queued entry and no duty slots. */
  lemma GenerateFailsIff(rooms: seq<Room>, schedule: seq<DutyRecord>, queue: seq<QueueEntry>, nextId: nat, today: Date, dayOfYear: int)
    requires QueueOrdered(queue, nextId)
    ensures Generate(rooms, schedule, queue, today, dayOfYear, 2).failedAt.Some? <==>
      exists g :: 2 <= g < 10 && !HasRecord(schedule, today, g) && EntriesOf(queue, g) == []
                && TotalWeight(FloorRooms(rooms, g)) == 0
  {
    GenerateFailsAt(rooms, schedule, queue, today, dayOfYear, 2);
    FirstEmptyFloorFound(rooms, schedule, queue, today, dayOfYear, 2);
    FirstEmptyFloorNone(rooms, schedule, queue, today, dayOfYear, 2);
    forall g | 2 <= g < 10
      ensures Choose(rooms, schedule, queue, today, dayOfYear, g).NoRooms? <==>
        !HasRecord(schedule, today, g) && EntriesOf(queue, g) == [] && TotalWeight(FloorRooms(rooms, g)) == 0
    {
      ChooseMeaning(rooms, schedule, queue, nextId, today, dayOfYear, g);
    }
    var first := FirstEmptyFloor(rooms, schedule, queue, today, dayOfYear, 2);
    if first.Some? {
      var g := first.value;
      assert Choose(rooms, schedule, queue, today, dayOfYear, g).NoRooms?;
      assert 2 <= g < 10 && !HasRecord(schedule, today, g) && EntriesOf(queue, g) == []
             && TotalWeight(FloorRooms(rooms, g)) == 0;
    }
    if exists g :: 2 <= g < 10 && !HasRecord(schedule, today, g) && EntriesOf(queue, g) == []
                   && TotalWeight(FloorRooms(rooms, g)) == 0 {
      var g :| 2 <= g < 10 && !HasRecord(schedule, today, g) && EntriesOf(queue, g) == []
               && TotalWeight(FloorRooms(rooms, g)) == 0;
      assert Choose(rooms, schedule, queue, today, dayOfYear, g).NoRooms?;
    }
  }

  /** A skipped room appended to the queue waits behind the floor's older
      entries, and is the floor's next duty room when there are none. */
  lemma SkippedRoomWaitsItsTurn(rooms: seq<Room>, schedule: seq<DutyRecord>, queue: seq<QueueEntry>, e: QueueEntry, today: Date, dayOfYear: int)
    requires !HasRecord(schedule, today, e.floor)
    ensures Choose(rooms, schedule, queue + [e], today, dayOfYear, e.floor) ==
      if EntriesOf(queue, e.floor) == [] then FromQueue(e) else Choose(rooms, schedule, queue, today, dayOfYear, e.floor)
  {
    EntriesOfAppend(queue, e, e.floor);
    QueuedRoomIsHead(queue, e.floor);
    QueuedRoomIsHead(queue + [e], e.floor);
  }

  /** Two skips on a floor with no earlier debts, rooms `a` then `b`, are
      served by the next two generations in that order: `a` today, and
      `b` by the next run on any later schedule without a record. */
  lemma SkipsServedInOrder(rooms: seq<Room>, schedule: seq<DutyRecord>, queue: seq<QueueEntry>, a: QueueEntry, b: QueueEntry,
                           today: Date, dayOfYear: int, later: seq<DutyRecord>, tomorrow: Date, nextDayOfYear: int)
    requires 2 <= a.floor < 10 && b.floor == a.floor && EntriesOf(queue, a.floor) == []
    requires !HasRecord(schedule, today, a.floor) && !HasRecord(later, tomorrow, a.floor)
    ensures Choose(rooms, schedule, queue + [a, b], today, dayOfYear, a.floor) == FromQueue(a)
    ensures Generate(rooms, schedule, queue + [a, b], today, dayOfYear, 2).failedAt.None? ==>
      Choose(rooms, later, Generate(rooms, schedule, queue + [a, b], today, dayOfYear, 2).queue, tomorrow, nextDayOfYear, a.floor)
        == FromQueue(b)
  {
    var f := a.floor;
    var q := queue + [a, b];
    assert q == (queue + [a]) + [b];
    EntriesOfAppend(queue, a, f);
    EntriesOfAppend(queue + [a], b, f);
    assert EntriesOf(q, f) == [a, b];
    QueuedRoomIsHead(q, f);
    var run := Generate(rooms, schedule, q, today, dayOfYear, 2);
    if run.failedAt.None? {
      GenerateQueueServed(rooms, schedule, q, today, dayOfYear, 2, f);
      assert EntriesOf(run.queue, f) == [b];
      QueuedRoomIsHead(run.queue, f);
    }
  }

  // ---------------------------------------------------------------- the run with the write lock

  /** generate_duty_schedule as written, with SQLite's write lock. The first
      INSERT on the run's connection opens a transaction that holds the lock
      until the commit after the loop; `clear_duty_queue` deletes on a
      connection of its own, so once the run has inserted a row, a floor
      served from the queue waits out the busy timeout and raises "database
      is locked". The run then stops at that floor as it does on an empty
      duty sequence. `locked` says whether the run's connection has inserted. */
  function GenerateLocked(rooms: seq<Room>, schedule: seq<DutyRecord>, queue: seq<QueueEntry>, today: Date, dayOfYear: int, floor: int, locked: bool): (run: Run)
    requires 2 <= floor <= 10
    decreases 10 - floor
    ensures run.failedAt.Some? ==> floor <= run.failedAt.value < 10
  {
    if floor == 10 then Run(schedule, queue, None)
    else
      var c := Choose(rooms, schedule, queue, today, dayOfYear, floor);
      if c.NoRooms? || (c.FromQueue? && locked) then Run(schedule, queue, Some(floor))
      else GenerateLocked(rooms, StepSchedule(schedule, c, today, floor), StepQueue(queue, c, floor), today, dayOfYear, floor + 1,
                          locked || !c.Existing?)
  }

  /** One floor of the run with the lock: stop on an empty duty sequence or
      on a queued room once the lock is held, else serve the floor and go on. */
  lemma GenerateLockedStep(rooms: seq<Room>, schedule: seq<DutyRecord>, queue: seq<QueueEntry>, today: Date, dayOfYear: int, floor: int, locked: bool)
    requires 2 <= floor < 10
    ensures var c := Choose(rooms, schedule, queue, today, dayOfYear, floor);
      GenerateLocked(rooms, schedule, queue, today, dayOfYear, floor, locked) ==
        if c.NoRooms? || (c.FromQueue? && locked) then Run(schedule, queue, Some(floor))
        else GenerateLocked(rooms, StepSchedule(schedule, c, today, floor), StepQueue(queue, c, floor), today, dayOfYear, floor + 1,
                            locked || !c.Existing?)
  {
  }

  /** The skip is lost as written: on a day when floor 2 gets its rotation
      room and floor 3 has a skipped room waiting, the run with the lock
      stops at floor 3 with the queue untouched, so floors 3..9 get no duty
      and the same happens on every later day until the entry is deleted by
      hand; the run without the lock goes past floor 3 and serves the entry. */
  lemma LockedRunStopsAtSkippedFloor(rooms: seq<Room>, schedule: seq<DutyRecord>, queue: seq<QueueEntry>, today: Date, dayOfYear: int)
    requires Choose(rooms, schedule, queue, today, dayOfYear, 2).FromRotation?
    requires Choose(rooms, schedule, queue, today, dayOfYear, 3).FromQueue?
    ensures GenerateLocked(rooms, schedule, queue, today, dayOfYear, 2, false).failedAt == Some(3)
    ensures GenerateLocked(rooms, schedule, queue, today, dayOfYear, 2, false).queue == queue
    ensures var run := Generate(rooms, schedule, queue, today, dayOfYear, 2);
      run.failedAt != Some(3) && (run.failedAt.None? || 3 < run.failedAt.value)
  {
    var c := Choose(rooms, schedule, queue, today, dayOfYear, 2);
    var s2, q2 := StepSchedule(schedule, c, today, 2), StepQueue(queue, c, 2);
    ChooseAfterStep(rooms, schedule, queue, today, dayOfYear, 2, c, 3);
    GenerateLockedStep(rooms, schedule, queue, today, dayOfYear, 2, false);
    GenerateLockedStep(rooms, s2, q2, today, dayOfYear, 3, true);
    GenerateStep(rooms, schedule, queue, today, dayOfYear, 2);
    GenerateStep(rooms, s2, q2, today, dayOfYear, 3);
  }

  /** The tables of such a day exist: one room on floor 2, and a skipped
      room of floor 3 in the queue. */
  lemma LockedRunExample(today: Date)
    ensures var rooms := [Room(201, 2, 1), Room(301, 3, 1)];
      var queue := [QueueEntry(1, 3, 301, "", "")];
      && Choose(rooms, [], queue, today, 1, 2) == FromRotation(201)
      && Choose(rooms, [], queue, today, 1, 3) == FromQueue(QueueEntry(1, 3, 301, "", ""))
  {
  }

  // ---------------------------------------------------------------- the duty sequence, proved

  /** A number is in the duty sequence exactly when it is the number of a
      room with at least one duty day. */
  lemma DutySequenceMembers(rs: seq<Room>, x: int)
    ensures x in DutySequence(rs) <==> exists i :: 0 <= i < |rs| && rs[i].number == x && rs[i].dutyDays > 0
  {
    if x in DutySequence(rs) {
      var i := DutySlotRoom(rs, x);
    }
    if exists i :: 0 <= i < |rs| && rs[i].number == x && rs[i].dutyDays > 0 {
      var i :| 0 <= i < |rs| && rs[i].number == x && rs[i].dutyDays > 0;
      DutySlotOf(rs, i);
    }
  }

  /** A number in the duty sequence is the number of a room with a duty day. */
  lemma {:induction false} DutySlotRoom(rs: seq<Room>, x: int) returns (i: int)
    requires x in DutySequence(rs)
    decreases |rs|
    ensures 0 <= i < |rs| && rs[i].number == x && rs[i].dutyDays > 0
  {
    var init, last := rs[..|rs| - 1], rs[|rs| - 1];
    var front, block := DutySequence(init), Repeat(last.number, last.dutyDays);
    assert DutySequence(rs) == front + block;
    if x in front {
      i := DutySlotRoom(init, x);
      assert rs[i] == init[i];
    } else {
      RepeatAll(last.number, last.dutyDays);
      var j :| 0 <= j < |block| && block[j] == x;
      i := |rs| - 1;
    }
  }

  /** The number of a room with a duty day is in the duty sequence. */
  lemma {:induction false} DutySlotOf(rs: seq<Room>, i: int)
    requires 0 <= i < |rs| && rs[i].dutyDays > 0
    decreases |rs|
    ensures rs[i].number in DutySequence(rs)
  {
    var init, last := rs[..|rs| - 1], rs[|rs| - 1];
    var front, block := DutySequence(init), Repeat(last.number, last.dutyDays);
    assert DutySequence(rs) == front + block;
    if i < |init| {
      DutySlotOf(init, i);
      assert init[i] == rs[i];
    } else {
      RepeatAll(last.number, last.dutyDays);
      assert block[0] == last.number;
    }
  }


  /** Over rooms in ascending order the duty sequence ascends too. */
  lemma {:induction false} DutySequenceAscending(rs: seq<Room>)
    requires RoomsOrdered(rs)
    ensures var ds := DutySequence(rs); forall i, j :: 0 <= i <= j < |ds| ==> ds[i] <= ds[j]
  {
    if rs != [] {
      var init, last := rs[..|rs| - 1], rs[|rs| - 1];
      DutySequenceAscending(init);
      var front, block := DutySequence(init), Repeat(last.number, last.dutyDays);
      RepeatAll(last.number, last.dutyDays);
      var ds := front + block;
      forall i | 0 <= i < |front|
        ensures front[i] < last.number
      {
        var k := DutySlotRoom(init, front[i]);
        assert rs[k] == init[k];
      }
      forall i, j | 0 <= i <= j < |ds|
        ensures ds[i] <= ds[j]
      {
        if j >= |front| {
          assert ds[j] == last.number;
          if i < |front| {
            assert ds[i] == front[i];
          }
        }
      }
    }
  }

  /** With one duty day per room the sequence is the room numbers themselves. */
  lemma {:induction false} DutySequenceUnitDays(rs: seq<Room>)
    requires forall i :: 0 <= i < |rs| ==> rs[i].dutyDays == 1
    ensures DutySequence(rs) == RoomNumbers(rs)
  {
    if rs != [] {
      var init := rs[..|rs| - 1];
      DutySequenceUnitDays(init);
      var a, b := RoomNumbers(rs), RoomNumbers(init) + [rs[|rs| - 1].number];
      assert |a| == |b|;
      forall i | 0 <= i < |a|
        ensures a[i] == b[i]
      {
        if i < |init| {
          assert init[i] == rs[i];
        }
      }
    }
  }

  // ---------------------------------------------------------------- the seeded dormitory

  /** On the seeded rooms a floor's duty sequence is its twelve rooms
      floor*100+1 .. floor*100+12, one slot each. */
  lemma SeededDutySequence(floor: int)
    requires 2 <= floor <= 9
    ensures |DutySequence(FloorRooms(SeedList(), floor))| == 12
    ensures forall i :: 0 <= i < 12 ==> DutySequence(FloorRooms(SeedList(), floor))[i] == floor * 100 + i + 1
  {
    SeededFloorRooms(9, floor);
    SeedFloorsComplete();
    DutySequenceUnitDays(SeedFloor(floor));
  }

  /** With no record and no queued room, a seeded floor's duty room is
      room number 1 + the rotation index of the day. */
  lemma SeededRotation(schedule: seq<DutyRecord>, queue: seq<QueueEntry>, today: Date, dayOfYear: int, floor: int)
    requires 2 <= floor <= 9
    requires !HasRecord(schedule, today, floor) && EntriesOf(queue, floor) == []
    ensures Choose(SeedList(), schedule, queue, today, dayOfYear, floor)
         == FromRotation(floor * 100 + 1 + RotationIndex(dayOfYear, floor, 12))
  {
    SeededDutySequence(floor);
    SlotInDutySequence(FloorRooms(SeedList(), floor), RotationIndex(dayOfYear, floor, 12));
    QueuedRoomIsHead(queue, floor);
  }

  /** 9 April 2024 is day 100 of a leap year: on the freshly seeded rooms,
      with an empty schedule and queue, floor 2 cleans room 205 and floor 3 room 308. */
  lemma SeededRotationExample()
    ensures Choose(SeedList(), [], [], Date(2024, 4, 9), DayOfYear(Date(2024, 4, 9)), 2) == FromRotation(205)
    ensures Choose(SeedList(), [], [], Date(2024, 4, 9), DayOfYear(Date(2024, 4, 9)), 3) == FromRotation(308)
  {
    var today := Date(2024, 4, 9);
    assert DayOfYear(today) == 100;
    SeededRotation([], [], today, 100, 2);
    SeededRotation([], [], today, 100, 3);
    ModUnique(100, 12, 8, 4);
    ModUnique(103, 12, 8, 7);
  }

  /** 31 December 2023 is day 365 of a common year: floor 9 cleans room 903. */
  lemma SeededRotationYearEnd()
    ensures Choose(SeedList(), [], [], Date(2023, 12, 31), DayOfYear(Date(2023, 12, 31)), 9) == FromRotation(903)
  {
    assert DayOfYear(Date(2023, 12, 31)) == 365;
    SeededRotation([], [], Date(2023, 12, 31), 365, 9);
    ModUnique(386, 12, 32, 2);
  }

  /** 1 January 2025 is day 1: floor 5 cleans room 511. */
  lemma SeededRotationNewYear()
    ensures Choose(SeedList(), [], [], Date(2025, 1, 1), DayOfYear(Date(2025, 1, 1)), 5) == FromRotation(511)
  {
    SeededRotation([], [], Date(2025, 1, 1), 1, 5);
    ModUnique(10, 12, 0, 10);
  }

  // ---------------------------------------------------------------- the report

  /** `[d for d in duties if d['status'] == 'completed']`. */
  function CompletedDuties(duties: seq<DutyRecord>): (r: seq<DutyRecord>)
    ensures |r| <= |duties|
    ensures forall d :: d in r <==> d in duties && d.status == Completed
  {
    if duties == [] then []
    else (if duties[0].status == Completed then [duties[0]] else []) + CompletedDuties(duties[1..])
  }

  /** `[d for d in duties if d['status'] == 'pending']`. */
  function PendingDuties(duties: seq<DutyRecord>): (r: seq<DutyRecord>)
    ensures |r| <= |duties|
    ensures forall d :: d in r <==> d in duties && d.status == Pending
  {
    if duties == [] then []
    else (if duties[0].status == Pending then [duties[0]] else []) + PendingDuties(duties[1..])
  }

  /** The two lists split the duties: no duty is in both, each is in one,
      and their lengths add up to the number of duties. */
  lemma {:induction false} ReportPartition(duties: seq<DutyRecord>)
    ensures |CompletedDuties(duties)| + |PendingDuties(duties)| == |duties|
    ensures forall d :: d in duties ==> (d in CompletedDuties(duties) <==> d !in PendingDuties(duties))
  {
    if duties != [] {
      ReportPartition(duties[1..]);
    }
  }

  /** `len(completed)*100//total if total else 0` in send_admin_report. */
  function ReportPercent(duties: seq<DutyRecord>): (pct: int)
    ensures 0 <= pct <= 100
    ensures pct == 100 <==> duties != [] && |CompletedDuties(duties)| == |duties|
    ensures CompletedDuties(duties) == [] ==> pct == 0
  {
    var total := |duties|;
    var done := |CompletedDuties(duties)|;
    PercentBounds(done, total);
    if total == 0 then 0 else done * 100 / total
  }

  /** `done * 100 // total` lies in [0, 100] and is 100 only when all are done. */
  lemma PercentBounds(done: nat, total: nat)
    requires done <= total
    ensures total > 0 ==> 0 <= done * 100 / total <= 100
    ensures total > 0 ==> (done * 100 / total == 100 <==> done == total)
    ensures total > 0 && done == 0 ==> done * 100 / total == 0
  {
    if total > 0 {
      var a := done * 100;
      var q, r := a / total, a % total;
      assert a == q * total + r && 0 <= r < total;
      MulBounds(q, total);
      MulBounds(q - 100, total);
      if q >= 100 {
        assert q * total == (q - 100) * total + 100 * total;
      }
      if done == total {
        ModUnique(a, total, 100, 0);
      }
      if done == 0 {
        ModUnique(a, total, 0, 0);
      }
    }
  }
}
