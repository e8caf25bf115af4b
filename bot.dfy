/** The command handlers of bot.py that change the duty tables: /skip and
    /tasdiqlash, the admin report's percentage and the general-cleaning
    room test. Telegram's update and context become parameters: the
    caller's id and first name, and the command's arguments (the message
    split at whitespace). */
module Bot {
  import opened Common
  import opened Calendar
  import opened Text
  import opened Database
  import opened Scheduler

  // ---------------------------------------------------------------- general cleaning

  /** is_general_cleaning_room: the last two digits are 1, 6, 7 or 12.
      Python's `%` by 100 is the Euclidean remainder, as Dafny's is. */
  predicate IsGeneralCleaningRoom(number: int): (b: bool)
    ensures b ==> 1 <= number % 100 <= 12
  {
    number % 100 in {1, 6, 7, 12}
  }

  /** The test only looks at the room's position on its floor. */
  lemma GeneralCleaningIsPerFloor(number: int, k: int)
    ensures IsGeneralCleaningRoom(number + 100 * k) <==> IsGeneralCleaningRoom(number)
  {
    ModUnique(number + 100 * k, 100, number / 100 + k, number % 100);
  }

  /** On a seeded floor the general-cleaning rooms are rooms 1, 6, 7 and
      12, four of the twelve. */
  lemma SeededGeneralCleaningRooms(floor: int)
    requires 2 <= floor <= 9
    ensures forall idx :: 1 <= idx <= 12 ==>
      (IsGeneralCleaningRoom(SeedRoom(floor, idx).number) <==> idx in {1, 6, 7, 12})
  {
    forall idx | 1 <= idx <= 12
      ensures SeedRoom(floor, idx).number % 100 == idx
    {
      ModUnique(floor * 100 + idx, 100, floor, idx);
    }
  }

  // ---------------------------------------------------------------- the report percentage

  /** admin_report: `total = len(duties) if duties else 1`, then
      `len(completed)*100//total`. */
  function AdminPercent(duties: seq<DutyRecord>): (pct: int)
    ensures 0 <= pct <= 100
  {
    var total := if duties != [] then |duties| else 1;
    PercentBounds(|CompletedDuties(duties)|, total);
    |CompletedDuties(duties)| * 100 / total
  }

  /** The bot's report and the scheduled report show the same percentage:
      with no duties both say 0. */
  lemma AdminPercentAgrees(duties: seq<DutyRecord>)
    ensures AdminPercent(duties) == ReportPercent(duties)
  {
    if duties == [] {
      assert CompletedDuties(duties) == [];
    }
  }

  // ---------------------------------------------------------------- /tasdiqlash

  datatype ConfirmOutcome =
    | NoArgument              // no argument: the usage message
    | NotANumber              // int() raised ValueError
    | ConfirmedRoom(room: int)

  /** The argument check of confirm_duty. */
  function ConfirmArgument(args: seq<string>): (r: ConfirmOutcome)
    ensures r.NoArgument? <==> args == []
    ensures r.NotANumber? <==> args != [] && ParseInt(args[0]).None?
    ensures r.ConfirmedRoom? ==> args != [] && ParseInt(args[0]) == Some(r.room)
  {
    if args == [] then NoArgument
    else match ParseInt(args[0])
      case None => NotANumber
      case Some(n) => ConfirmedRoom(n)
  }

  /** A room number written out by the bot is read back as that number. */
  lemma ConfirmArgumentRoundTrip(n: int, rest: seq<string>)
    ensures ConfirmArgument([IntToString(n)] + rest) == ConfirmedRoom(n)
  {
    ParseIntToString(n);
  }

  /** "{user.id}:{user.first_name}", the caller as the tables record it; the
      Telegram id is the text before the first colon. */
  function Caller(userId: int, firstName: string): (r: string)
    ensures Split(r, ':')[0] == IntToString(userId)
  {
    var id := IntToString(userId);
    assert ':' !in id by {
      if userId >= 0 {
        assert AllDigits(NatToString(userId));
      } else {
        assert id == "-" + NatToString(-userId);
        assert AllDigits(NatToString(-userId));
      }
    }
    SplitAfterPiece(id, firstName, ':');
    assert id + ":" + firstName == id + [':'] + firstName;
    id + ":" + firstName
  }

  /** confirm_duty, the handler: on a number, database confirm_duty for
      today on behalf of the caller; otherwise nothing changes. */
  method ConfirmCommand(store: Store, userId: int, firstName: string, args: seq<string>, today: Date, now: string)
    returns (outcome: ConfirmOutcome)
    requires store.Valid()
    modifies store
    ensures store.Valid()
    ensures outcome == ConfirmArgument(args)
    ensures store.schedule == if outcome.ConfirmedRoom?
      then ConfirmRecords(old(store.schedule), today, outcome.room, Caller(userId, firstName), now)
      else old(store.schedule)
    ensures store.rooms == old(store.rooms) && store.queue == old(store.queue) && store.nextQueueId == old(store.nextQueueId)
    ensures store.attendance == old(store.attendance) && store.penalties == old(store.penalties)
    ensures store.supervisors == old(store.supervisors)
  {
    if |args| == 0 {
      return NoArgument;
    }
    var parsed := ParseInt(args[0]);
    if parsed.None? {
      return NotANumber;
    }
    var _ := store.ConfirmDuty(parsed.value, Caller(userId, firstName), today, now);
    outcome := ConfirmedRoom(parsed.value);
  }

  // ---------------------------------------------------------------- /skip

  /** The answers of skip_room. */
  datatype SkipOutcome =
    | NotSupervisor            // the caller is not in floor_supervisors
    | NoRoomGiven              // no argument: the usage message
    | BadRoomNumber            // int() raised ValueError
    | NotYourFloor(floor: int) // `str(floor)` is not one of the supervisor's floors
    | Skipped(floor: int, room: int, reason: string)

  /** The reason text when none is given. */
  const NoReason: string := "Sabab ko'rsatilmagan"

  /** `" ".join(args[1:]) if len(args) > 1 else "Sabab ko'rsatilmagan"`. */
  function SkipReason(args: seq<string>): (reason: string)
    requires |args| >= 1
    ensures |args| == 1 ==> reason == NoReason
    ensures |args| > 1 ==> reason == Join(args[1..], " ")
  {
    if |args| > 1 then Join(args[1..], " ") else NoReason
  }

  /** Telegram's `context.args` are the message split on whitespace, so no
      argument holds a space; splitting the joined reason on spaces then
      gives back exactly the words after the room number. */
  lemma SkipReasonKeepsWords(args: seq<string>)
    requires |args| > 1
    requires forall k :: 1 <= k < |args| ==> ' ' !in args[k]
    ensures Split(SkipReason(args), ' ') == args[1..]
  {
    var words := args[1..];
    forall k | 0 <= k < |words|
      ensures ' ' !in words[k]
    {
      assert words[k] == args[k + 1];
    }
    assert " " == [' '];
    SplitJoin(words, ' ');
  }

  /** The checks of skip_room in their order: the caller is a supervisor,
      an argument is given, it is a number, and its floor `room // 100` is
      one of the comma-separated floors of the supervisor. */
  function CheckSkip(supervisors: seq<Supervisor>, userId: int, args: seq<string>): (r: SkipOutcome)
    ensures r.NotSupervisor? <==> FindSupervisor(supervisors, IntToString(userId)).None?
    ensures r.Skipped? <==>
      && FindSupervisor(supervisors, IntToString(userId)).Some? && args != [] && ParseInt(args[0]).Some?
      && IntToString(ParseInt(args[0]).value / 100) in Split(FindSupervisor(supervisors, IntToString(userId)).value.floors, ',')
    ensures r.Skipped? ==>
      && r.room == ParseInt(args[0]).value && r.floor == r.room / 100 && r.reason == SkipReason(args)
    ensures r.NotYourFloor? ==>
      && FindSupervisor(supervisors, IntToString(userId)).Some? && args != [] && ParseInt(args[0]).Some?
      && r.floor == ParseInt(args[0]).value / 100
  {
    match FindSupervisor(supervisors, IntToString(userId))
      case None => NotSupervisor
      case Some(sup) =>
        if |args| < 1 then NoRoomGiven
        else match ParseInt(args[0])
          case None => BadRoomNumber
          case Some(room) =>
            var floor := room / 100;
            if IntToString(floor) !in Split(sup.floors, ',') then NotYourFloor(floor)
            else Skipped(floor, room, SkipReason(args))
  }

  /** `UPDATE duty_schedule SET room_number = ? WHERE date = ? AND floor = ?`. */
  function Reassign(schedule: seq<DutyRecord>, date: Date, floor: int, room: Option<int>): (r: seq<DutyRecord>)
    ensures |r| == |schedule|
    ensures forall i :: 0 <= i < |r| ==>
      && r[i].date == schedule[i].date && r[i].floor == schedule[i].floor
      && r[i].status == schedule[i].status
      && r[i].confirmedBy == schedule[i].confirmedBy && r[i].confirmedAt == schedule[i].confirmedAt
    ensures forall i :: 0 <= i < |r| ==>
      r[i].room == if schedule[i].date == date && schedule[i].floor == floor then room else schedule[i].room
  {
    if schedule == [] then []
    else
      var rec := schedule[0];
      [if rec.date == date && rec.floor == floor then rec.(room := room) else rec]
        + Reassign(schedule[1..], date, floor, room)
  }

  /** The update keeps one record per (date, floor) and every (date, floor) that had one. */
  lemma ReassignKeepsOnePerDay(schedule: seq<DutyRecord>, date: Date, floor: int, room: Option<int>)
    requires OnePerDay(schedule)
    ensures OnePerDay(Reassign(schedule, date, floor, room))
    ensures forall d, f :: HasRecord(Reassign(schedule, date, floor, room), d, f) <==> HasRecord(schedule, d, f)
  {
    var r := Reassign(schedule, date, floor, room);
    forall d, f
      ensures HasRecord(r, d, f) <==> HasRecord(schedule, d, f)
    {
      HasRecordAt(r, d, f);
      HasRecordAt(schedule, d, f);
      if HasRecord(r, d, f) {
        var i :| 0 <= i < |r| && r[i].date == d && r[i].floor == f;
        assert schedule[i].date == d && schedule[i].floor == f;
      }
      if HasRecord(schedule, d, f) {
        var i :| 0 <= i < |schedule| && schedule[i].date == d && schedule[i].floor == f;
        assert r[i].date == d && r[i].floor == f;
      }
    }
  }

  /** A second update of the same (date, floor) overrides the first. */
  lemma ReassignLastWins(schedule: seq<DutyRecord>, date: Date, floor: int, a: Option<int>, b: Option<int>)
    ensures Reassign(Reassign(schedule, date, floor, a), date, floor, b) == Reassign(schedule, date, floor, b)
  {
    var x, y := Reassign(Reassign(schedule, date, floor, a), date, floor, b), Reassign(schedule, date, floor, b);
    assert |x| == |y|;
    forall i | 0 <= i < |x|
      ensures x[i] == y[i]
    {
    }
  }

  /** skip_room: on a refusal nothing changes. Otherwise the skipped room
      joins the end of the queue with the next id, and today's record of
      its floor, if any, now names the room after it in the floor's
      ascending room list (or no room when the floor has none). */
  method SkipRoom(store: Store, userId: int, firstName: string, args: seq<string>, today: Date)
    returns (outcome: SkipOutcome)
    requires store.Valid()
    modifies store
    ensures store.Valid()
    ensures outcome == CheckSkip(old(store.supervisors), userId, args)
    ensures !outcome.Skipped? ==>
      (store.queue == old(store.queue) && store.schedule == old(store.schedule) && store.nextQueueId == old(store.nextQueueId))
    ensures outcome.Skipped? ==>
      && store.queue == old(store.queue)
           + [QueueEntry(old(store.nextQueueId), outcome.floor, outcome.room, outcome.reason, Caller(userId, firstName))]
      && store.nextQueueId == old(store.nextQueueId) + 1
      && store.schedule == Reassign(old(store.schedule), today, outcome.floor,
                                    NextRoomInSequence(old(store.rooms), outcome.floor, outcome.room))
    ensures store.rooms == old(store.rooms) && store.attendance == old(store.attendance)
    ensures store.penalties == old(store.penalties) && store.supervisors == old(store.supervisors)
  {
    var sup := FindSupervisor(store.supervisors, IntToString(userId));
    if sup.None? {
      return NotSupervisor;
    }
    if |args| < 1 {
      return NoRoomGiven;
    }
    var parsed := ParseInt(args[0]);
    if parsed.None? {
      return BadRoomNumber;
    }
    var room := parsed.value;
    var reason := SkipReason(args);
    var floor := room / 100;
    if IntToString(floor) !in Split(sup.value.floors, ',') {
      return NotYourFloor(floor);
    }
    var next := NextRoomInSequence(store.rooms, floor, room);
    store.SkipDutyRoom(floor, room, reason, Caller(userId, firstName));
    ReassignKeepsOnePerDay(store.schedule, today, floor, next);
    store.schedule := Reassign(store.schedule, today, floor, next);
    outcome := Skipped(floor, room, reason);
  }

  // ---------------------------------------------------------------- the supervisor's floors

  /** Floor numbers written as the admin panel stores them: "2,3". */
  function FloorsText(floors: seq<int>): (s: string)
    ensures floors == [] ==> s == ""
  {
    Join(FloorStrings(floors), ",")
  }

  function FloorStrings(floors: seq<int>): (r: seq<string>)
    ensures |r| == |floors| && forall k :: 0 <= k < |floors| ==> r[k] == IntToString(floors[k])
  {
    if floors == [] then [] else [IntToString(floors[0])] + FloorStrings(floors[1..])
  }

  /** For a supervisor whose floors are written "2,3", the check passes
      exactly for rooms on one of those floors. */
  lemma FloorCheckIff(floors: seq<int>, room: int)
    requires floors != []
    ensures IntToString(room / 100) in Split(FloorsText(floors), ',') <==> room / 100 in floors
  {
    var parts := FloorStrings(floors);
    forall k | 0 <= k < |parts|
      ensures ',' !in parts[k]
    {
      assert parts[k] == IntToString(floors[k]);
    }
    SplitJoin(parts, ',');
    var f := room / 100;
    if IntToString(f) in parts {
      var k :| 0 <= k < |parts| && parts[k] == IntToString(f);
      IntToStringInjective(floors[k], f);
    }
    if f in floors {
      var k :| 0 <= k < |floors| && floors[k] == f;
      assert parts[k] == IntToString(f);
    }
  }

  /** The floors must be written without spaces: a supervisor of "2, 3"
      is refused floor 3, since the second piece is " 3". */
  lemma SpacedFloorsRefused(sup: Supervisor)
    requires sup.floors == "2, 3"
    ensures IntToString(305 / 100) !in Split(sup.floors, ',')
    ensures IntToString(205 / 100) in Split(sup.floors, ',')
  {
    assert sup.floors == "2" + [','] + " 3";
    SplitAfterPiece("2", " 3", ',');
    SplitNoSeparator(" 3", ',');
    assert IntToString(3) == "3" && IntToString(2) == "2";
  }

  /** After a skip rewrote today's record of the floor to another room,
      confirming the skipped room leaves that record as it was: the
      confirmation matches by room number and finds nothing there. */
  lemma ConfirmAfterSkipMisses(schedule: seq<DutyRecord>, today: Date, floor: int, next: Option<int>, room: int, who: string, at: string)
    requires next != Some(room)
    ensures forall i :: 0 <= i < |schedule| && schedule[i].date == today && schedule[i].floor == floor ==>
      ConfirmRecords(Reassign(schedule, today, floor, next), today, room, who, at)[i]
        == Reassign(schedule, today, floor, next)[i]
  {
  }
}
