/** `run` (src/lib.rs:102-112): resolve the window from the two optional
    arguments, scrape, and select the free rooms. The clock, the network
    and the printing are outside: `now` is the current time of day, the
    page's attributes arrive as rows and elements, and the free rooms are
    returned rather than printed. */
module Run {
  import opened Wrappers
  import opened TimeArg
  import opened Rooms
  import opened Availability

  /** The query window as the engine reads it, in seconds since midnight. */
  datatype Window = Window(start: TimeOfDay, end: TimeOfDay)

  datatype RunError = TimeArgFailed(timeError: TimeError) | ScrapeFailed(scrapeError: ScrapeError)

  /** One hour after `start`, read back as a time of day: past 23:00 it
      wraps to the small hours. */
  function DefaultEnd(start: TimeOfDay): (end: TimeOfDay)
    ensures start < SecondsPerDay - SecondsPerHour ==> end == start + SecondsPerHour
    ensures start >= SecondsPerDay - SecondsPerHour ==> end == start + SecondsPerHour - SecondsPerDay && end < start
  {
    (start + SecondsPerHour) % SecondsPerDay
  }

  /** The start comes from `--start` or the clock; the end from `--end` or,
      failing that, one hour after the resolved start. */
  function ResolveWindow(startArg: Option<string>, endArg: Option<string>, now: TimeOfDay): (r: Result<Window, TimeError>)
    ensures r.Ok? ==> ParseTimeArg(startArg, now) == Ok(r.value.start)
    ensures r.Ok? && endArg.None? ==> r.value.end == DefaultEnd(r.value.start)
    ensures r.Ok? && endArg.Some? ==> ParseTimeArg(endArg, 0) == Ok(r.value.end)
    ensures ParseTimeArg(startArg, now).Err? ==> r == Err(ParseTimeArg(startArg, now).error)
    ensures ParseTimeArg(startArg, now).Ok? ==>
              (r.Ok? <==> ParseTimeArg(endArg, DefaultEnd(ParseTimeArg(startArg, now).value)).Ok?)
    ensures ParseTimeArg(startArg, now).Ok? && ParseTimeArg(endArg, DefaultEnd(ParseTimeArg(startArg, now).value)).Err? ==>
              r == Err(ParseTimeArg(endArg, DefaultEnd(ParseTimeArg(startArg, now).value)).error)
  {
    var start :- ParseTimeArg(startArg, now);
    var end :- ParseTimeArg(endArg, DefaultEnd(start));
    Ok(Window(start, end))
  }

  /** With neither argument, the window is the hour from now. */
  lemma NoArgumentsGiveNextHour(now: TimeOfDay)
    ensures ResolveWindow(None, None, now) == Ok(Window(now, DefaultEnd(now)))
  {
  }

  /** With a `--start` value and no `--end`, the window is the hour from the
      given start, whatever the clock says. */
  lemma DefaultEndFollowsStart(startText: string, now1: TimeOfDay, now2: TimeOfDay)
    requires ParseTimeArg(Some(startText), now1).Ok?
    ensures ResolveWindow(Some(startText), None, now1) == ResolveWindow(Some(startText), None, now2)
    ensures ResolveWindow(Some(startText), None, now1).Ok?
    ensures var w := ResolveWindow(Some(startText), None, now1).value;
      (w.end - w.start) % SecondsPerDay == SecondsPerHour
  {
  }

  method Run(startArg: Option<string>, endArg: Option<string>, now: TimeOfDay,
             rows: seq<RoomRow>, elements: seq<ReservationElement>, decode: string -> Option<nat>)
    returns (r: Result<map<string, Room>, RunError>)
    ensures ResolveWindow(startArg, endArg, now).Err? ==> r == Err(TimeArgFailed(ResolveWindow(startArg, endArg, now).error))
    ensures ResolveWindow(startArg, endArg, now).Ok? && Scrape(rows, elements, decode).Err? ==>
              r == Err(ScrapeFailed(Scrape(rows, elements, decode).error))
    ensures ResolveWindow(startArg, endArg, now).Ok? && Scrape(rows, elements, decode).Ok? ==>
              var w := ResolveWindow(startArg, endArg, now).value;
              r == Ok(FreeRoomsOf(Scrape(rows, elements, decode).value, w.start, w.end))
  {
    var window := ResolveWindow(startArg, endArg, now);
    if window.Err? {
      return Err(TimeArgFailed(window.error));
    }
    var rooms := ScrapeRooms(rows, elements, decode);
    if rooms.Err? {
      return Err(ScrapeFailed(rooms.error));
    }
    var free := FreeRooms(rooms.value, window.value.start, window.value.end);
    r := Ok(free);
  }

  /** One room "A" of four seats with one reservation at midnight whose
      element is 58 pixels wide, the width of one hour: the scrape books the
      room for [0, 3600). */
  lemma ScrapeOneRoom(decode: string -> Option<nat>)
    requires decode("58") == Some(3600)
    ensures Scrape([RoomRow(Some("A"), Some("1"), Some("4"))],
                   [ReservationElement(Some("A"), Some(0), Some("width: 58px;"))], decode)
         == Ok(map["A" := Room("A", 1, 4, [Reservation(0, 3600)])])
  {
    var empty := Room("A", 1, 4, []);
    var booked := map["A" := Room("A", 1, 4, [Reservation(0, 3600)])];
    var row := RoomRow(Some("A"), Some("1"), Some("4"));
    var element := ReservationElement(Some("A"), Some(0), Some("width: 58px;"));
    RowOfRoomA();
    assert InsertRooms(map[], [row]) == Ok(map["A" := empty]) by {
      assert [row][1..] == [];
    }
    ElementOfOneHour(decode);
    assert AttachAll(map["A" := empty], [element], decode) == Ok(booked) by {
      assert [element][1..] == [];
      assert [] + [Reservation(0, 3600)] == [Reservation(0, 3600)];
      assert Attach(map["A" := empty], "A", Reservation(0, 3600)) == booked;
      assert AttachAll(booked, [], decode) == Ok(booked);
    }
  }

  lemma RowOfRoomA()
    ensures RoomOf(RoomRow(Some("A"), Some("1"), Some("4"))) == Ok(Room("A", 1, 4, []))
  {
    NumberText.ParseI32OfIntText(1);
    NumberText.ParseU32OfNatText(4);
    assert NumberText.IntText(1) == "1";
    assert NumberText.NatText(4) == "4";
  }

  lemma ElementOfOneHour(decode: string -> Option<nat>)
    requires decode("58") == Some(3600)
    ensures ReservationOf(ReservationElement(Some("A"), Some(0), Some("width: 58px;")), decode)
         == Ok(("A", Reservation(0, 3600)))
  {
    WidthTextOneHour();
  }

  /** For that room the hour it is booked for, 00:00 to 01:00, is reported
      free, as is the next hour; a window half over the booking is not. */
  lemma OneRoomWindows()
    ensures var rooms := map["A" := Room("A", 1, 4, [Reservation(0, 3600)])];
      && FreeRoomsOf(rooms, 0, 3600) == rooms
      && FreeRoomsOf(rooms, 3600, 7200) == rooms
      && FreeRoomsOf(rooms, 1800, 5400) == map[]
  {
    var room := Room("A", 1, 4, [Reservation(0, 3600)]);
    assert !IsFree(room, 1800, 5400) by {
      assert Conflicts(room.reservations[0], 1800, 5400);
    }
  }
}
