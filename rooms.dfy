/** The room and reservation data model and `scrape_rooms` (src/lib.rs:13-25,
    42-80) from the point where the page's attributes have been read: rooms
    are inserted into a map keyed by name, then each reservation element is
    decoded and appended to the room it names. */
module Rooms {
  import opened Wrappers
  import opened Text
  import opened NumberText

  /** A booked interval in seconds since local midnight: `start` inclusive,
      `end` exclusive. */
  datatype Reservation = Reservation(start: nat, end: nat)

  datatype Room = Room(name: string, floor: int, size: nat, reservations: seq<Reservation>)

  /** The `data-sort` values of one timeline row's name, floor and size
      cells; None where the cell or its attribute is missing. */
  datatype RoomRow = RoomRow(name: Option<string>, floor: Option<string>, size: Option<string>)

  /** One `div.reserved` element: its `room_name` and `style` attributes, and
      its `seconds` attribute read as whole seconds (None when it is missing
      or not a number). */
  datatype ReservationElement = ReservationElement(roomName: Option<string>, seconds: Option<nat>, style: Option<string>)

  /** Each way the scrape can fail; every one of them ends the run. */
  datatype ScrapeError =
    | NameMissing
    | FloorMissing
    | FloorNotNumeric
    | SizeMissing
    | SizeNotNumeric
    | RoomNameMissing
    | SecondsMissing    // the `seconds` attribute is missing or is not a number
    | StyleMissing
    | PxMarkerMissing
    | StyleSlicePanic   // `&style[7..i]` with i < 7: the source panics here
    | WidthNotNumeric

  /** Length of the "width: " prefix that the width slice skips. */
  const WidthOffset: nat := 7
  const PxMarker: string := "px;"

  /** Every room is filed under its own name. */
  predicate KeyedByName(rooms: map<string, Room>) {
    forall k :: k in rooms ==> rooms[k].name == k
  }

  /** The width text of a reservation's style: from index 7 up to the first
      "px;". */
  function WidthText(style: string): (r: Result<string, ScrapeError>)
    ensures r == Err(PxMarkerMissing) <==> forall j: nat :: !OccursAt(style, PxMarker, j)
    ensures r == Err(StyleSlicePanic) <==> exists j: nat :: j < WidthOffset && OccursAt(style, PxMarker, j)
    ensures r.Ok? ==> WidthOffset + |r.value| <= |style| && style[WidthOffset..WidthOffset + |r.value|] == r.value
    ensures r.Ok? ==> OccursAt(style, PxMarker, WidthOffset + |r.value|)
    ensures r.Ok? ==> forall j: nat :: j < WidthOffset + |r.value| ==> !OccursAt(style, PxMarker, j)
    ensures r.Ok? || r.error in {PxMarkerMissing, StyleSlicePanic}
  {
    match Find(style, PxMarker)
    case None => Err(PxMarkerMissing)
    case Some(end) => if end < WidthOffset then Err(StyleSlicePanic) else Ok(style[WidthOffset..end])
  }

  /** A style of the form prefix + width + "px;" + anything, with a
      seven-character prefix and no "px;" before the marker, yields `width`. */
  lemma WidthTextOfStyle(prefix: string, width: string, rest: string)
    requires |prefix| == WidthOffset
    requires forall j: nat :: !OccursAt(prefix + width, PxMarker, j)
    ensures WidthText(prefix + width + PxMarker + rest) == Ok(width)
  {
    var head := prefix + width;
    var style := head + PxMarker + rest;
    var n := |head|;
    assert style[n..n + 3] == PxMarker;
    assert OccursAt(style, PxMarker, n);
    forall j: nat | j < n
      ensures !OccursAt(style, PxMarker, j)
    {
      if j + 3 <= n {
        assert style[j..j + 3] == head[j..j + 3];
        assert !OccursAt(head, PxMarker, j);
      } else {
        assert style[n] == 'p' && style[n + 1] == 'x';
        assert style[j + 2] != PxMarker[2];
      }
    }
    assert style[WidthOffset..n] == width;
  }

  /** The style of a one-hour reservation on the provider's page. */
  lemma WidthTextOneHour()
    ensures WidthText("width: 58px;") == Ok("58")
  {
    var head := "width: 58";
    assert "width: " + "58" == head;
    assert forall i :: 0 <= i < |head| ==> head[i] != 'p';
    forall j: nat
      ensures !OccursAt(head, PxMarker, j)
    {
      if j + 3 <= |head| {
        assert head[j..j + 3][0] == head[j];
      }
    }
    WidthTextOfStyle("width: ", "58", "");
    assert head + PxMarker + "" == "width: 58px;";
  }

  /** The room one row describes, with no reservations yet. A row is
      accepted exactly when its name is present and its floor and size are
      present and numeric; otherwise the first field that fails, in the
      order name, floor, size, gives the error. */
  function RoomOf(row: RoomRow): (r: Result<Room, ScrapeError>)
    ensures r.Ok? <==> row.name.Some? && row.floor.Some? && ParseI32(row.floor.value).Some?
                       && row.size.Some? && ParseU32(row.size.value).Some?
    ensures r.Ok? ==> row.name == Some(r.value.name) && r.value.reservations == []
    ensures r.Ok? ==> row.floor.Some? && ParseI32(row.floor.value) == Some(r.value.floor)
    ensures r.Ok? ==> row.size.Some? && ParseU32(row.size.value) == Some(r.value.size)
    ensures row.name.None? ==> r == Err(NameMissing)
    ensures row.name.Some? && row.floor.None? ==> r == Err(FloorMissing)
    ensures row.name.Some? && row.floor.Some? && ParseI32(row.floor.value).None? ==> r == Err(FloorNotNumeric)
    ensures row.name.Some? && row.floor.Some? && ParseI32(row.floor.value).Some? && row.size.None? ==>
              r == Err(SizeMissing)
    ensures row.name.Some? && row.floor.Some? && ParseI32(row.floor.value).Some?
            && row.size.Some? && ParseU32(row.size.value).None? ==>
              r == Err(SizeNotNumeric)
  {
    var name :- row.name.OkOr(NameMissing);
    var floorText :- row.floor.OkOr(FloorMissing);
    var floor :- ParseI32(floorText).OkOr(FloorNotNumeric);
    var sizeText :- row.size.OkOr(SizeMissing);
    var size :- ParseU32(sizeText).OkOr(SizeNotNumeric);
    Ok(Room(name, floor, size, []))
  }

  /** The first loop of the scrape: `rooms.insert(name, room)` for each row
      in order, stopping at the first row that fails. */
  function InsertRooms(rooms: map<string, Room>, rows: seq<RoomRow>): Result<map<string, Room>, ScrapeError>
    decreases |rows|
  {
    if rows == [] then Ok(rooms)
    else
      var room :- RoomOf(rows[0]);
      InsertRooms(rooms[room.name := room], rows[1..])
  }

  /** The names the rows give, when every row is well formed. */
  function RowNames(rows: seq<RoomRow>): set<string> {
    set i | 0 <= i < |rows| && rows[i].name.Some? :: rows[i].name.value
  }

  /** The index of the last row named `key`, if any row is. */
  function LastRowNamed(rows: seq<RoomRow>, key: string): (r: Option<nat>)
    ensures r.Some? ==> r.value < |rows| && rows[r.value].name == Some(key)
    ensures r.Some? ==> forall j :: r.value < j < |rows| ==> rows[j].name != Some(key)
    ensures r.None? ==> forall j :: 0 <= j < |rows| ==> rows[j].name != Some(key)
    decreases |rows|
  {
    if rows == [] then None
    else
      match LastRowNamed(rows[1..], key)
      case Some(i) => Some(i + 1)
      case None => if rows[0].name == Some(key) then Some(0) else None
  }

  /** The first loop succeeds exactly when every row is accepted; when it
      fails, the error is that of the first row refused. */
  lemma {:induction false} InsertRoomsSucceeds(rooms: map<string, Room>, rows: seq<RoomRow>)
    ensures InsertRooms(rooms, rows).Ok? <==> forall i :: 0 <= i < |rows| ==> RoomOf(rows[i]).Ok?
    ensures InsertRooms(rooms, rows).Err? ==>
              exists i :: 0 <= i < |rows| && RoomOf(rows[i]) == Err(InsertRooms(rooms, rows).error)
                          && forall j :: 0 <= j < i ==> RoomOf(rows[j]).Ok?
    decreases |rows|
  {
    if rows != [] && RoomOf(rows[0]).Ok? {
      var room := RoomOf(rows[0]).value;
      var later := rows[1..];
      InsertRoomsSucceeds(rooms[room.name := room], later);
      assert forall i :: 0 <= i < |later| ==> later[i] == rows[i + 1];
      if InsertRooms(rooms, rows).Err? {
        var i :| 0 <= i < |later| && RoomOf(later[i]) == Err(InsertRooms(rooms, rows).error)
                 && forall j :: 0 <= j < i ==> RoomOf(later[j]).Ok?;
        assert forall j :: 0 < j < i + 1 ==> RoomOf(rows[j]) == RoomOf(later[j - 1]);
        assert RoomOf(rows[i + 1]) == Err(InsertRooms(rooms, rows).error);
      } else {
        forall i | 0 <= i < |rows| ensures RoomOf(rows[i]).Ok? {
          if i > 0 {
            assert rows[i] == later[i - 1];
          }
        }
      }
    }
  }

  /** After the first loop every row's name is a key and nothing else was
      added; rooms stay filed under their names. */
  lemma {:induction false} InsertRoomsKeys(rooms: map<string, Room>, rows: seq<RoomRow>)
    requires InsertRooms(rooms, rows).Ok?
    ensures InsertRooms(rooms, rows).value.Keys == rooms.Keys + RowNames(rows)
    ensures KeyedByName(rooms) ==> KeyedByName(InsertRooms(rooms, rows).value)
    decreases |rows|
  {
    if rows != [] {
      var room := RoomOf(rows[0]).value;
      var next := rooms[room.name := room];
      InsertRoomsKeys(next, rows[1..]);
      assert RowNames(rows) == {room.name} + RowNames(rows[1..]) by {
        forall x | x in RowNames(rows) ensures x in {room.name} + RowNames(rows[1..]) {
          var i :| 0 <= i < |rows| && rows[i].name.Some? && rows[i].name.value == x;
          if i > 0 {
            assert rows[1..][i - 1] == rows[i];
          }
        }
        forall x | x in RowNames(rows[1..]) ensures x in RowNames(rows) {
          var i :| 0 <= i < |rows[1..]| && rows[1..][i].name.Some? && rows[1..][i].name.value == x;
          assert rows[i + 1] == rows[1..][i];
        }
      }
    }
  }

  /** After the first loop each key named by a row holds the room of the
      last row with that name, new and empty, so a later row replaces an
      earlier one; any other key is unchanged. */
  lemma {:induction false} InsertRoomsLastRow(rooms: map<string, Room>, rows: seq<RoomRow>)
    requires InsertRooms(rooms, rows).Ok?
    ensures forall k :: k in InsertRooms(rooms, rows).value ==>
              match LastRowNamed(rows, k)
              case Some(i) => RoomOf(rows[i]) == Ok(InsertRooms(rooms, rows).value[k])
              case None => k in rooms && InsertRooms(rooms, rows).value[k] == rooms[k]
    decreases |rows|
  {
    if rows != [] {
      var room := RoomOf(rows[0]).value;
      var next := rooms[room.name := room];
      var later := rows[1..];
      InsertRoomsLastRow(next, later);
      var result := InsertRooms(rooms, rows).value;
      assert result == InsertRooms(next, later).value;
      forall k | k in result
        ensures match LastRowNamed(rows, k)
                case Some(i) => RoomOf(rows[i]) == Ok(result[k])
                case None => k in rooms && result[k] == rooms[k]
      {
        match LastRowNamed(later, k)
        case Some(i) =>
          assert rows[i + 1] == later[i];
        case None =>
      }
    }
  }

  /** The new value of `rooms` after `room.reservations.push(reservation)`
      on the room keyed `roomName`, when there is one. */
  function Attach(rooms: map<string, Room>, roomName: string, reservation: Reservation): (r: map<string, Room>)
    ensures r.Keys == rooms.Keys
    ensures forall k :: k in rooms && k != roomName ==> r[k] == rooms[k]
    ensures roomName in rooms ==>
              r[roomName] == rooms[roomName].(reservations := rooms[roomName].reservations + [reservation])
  {
    if roomName in rooms then
      rooms[roomName := rooms[roomName].(reservations := rooms[roomName].reservations + [reservation])]
    else rooms
  }

  /** Attaching keeps every room under its own name. */
  lemma AttachKeepsKeyedByName(rooms: map<string, Room>, roomName: string, reservation: Reservation)
    requires KeyedByName(rooms)
    ensures KeyedByName(Attach(rooms, roomName, reservation))
  {
  }

  /** The room name and interval one element describes. `decode` stands for
      reading the width text as a float, multiplying it by the seconds per
      pixel and rounding; None when the text is not a number. */
  function ReservationOf(element: ReservationElement, decode: string -> Option<nat>): (r: Result<(string, Reservation), ScrapeError>)
    ensures r.Ok? <==> element.roomName.Some? && element.seconds.Some? && element.style.Some?
                       && WidthText(element.style.value).Ok? && decode(WidthText(element.style.value).value).Some?
    ensures r.Ok? ==> element.roomName == Some(r.value.0) && element.seconds == Some(r.value.1.start)
    ensures r.Ok? ==> element.style.Some? && WidthText(element.style.value).Ok?
    ensures r.Ok? ==> decode(WidthText(element.style.value).value) == Some(r.value.1.end - r.value.1.start)
    ensures element.roomName.None? ==> r == Err(RoomNameMissing)
    ensures element.roomName.Some? && element.seconds.None? ==> r == Err(SecondsMissing)
    ensures element.roomName.Some? && element.seconds.Some? && element.style.None? ==> r == Err(StyleMissing)
    ensures element.roomName.Some? && element.seconds.Some? && element.style.Some?
            && WidthText(element.style.value).Err? ==>
              r == Err(WidthText(element.style.value).error)
    ensures element.roomName.Some? && element.seconds.Some? && element.style.Some?
            && WidthText(element.style.value).Ok? && decode(WidthText(element.style.value).value).None? ==>
              r == Err(WidthNotNumeric)
  {
    var roomName :- element.roomName.OkOr(RoomNameMissing);
    var start :- element.seconds.OkOr(SecondsMissing);
    var style :- element.style.OkOr(StyleMissing);
    var width :- WidthText(style);
    var duration :- decode(width).OkOr(WidthNotNumeric);
    Ok((roomName, Reservation(start, start + duration)))
  }

  /** The second loop of the scrape: each element in order is decoded and
      attached, stopping at the first element that fails. */
  function AttachAll(rooms: map<string, Room>, elements: seq<ReservationElement>, decode: string -> Option<nat>): Result<map<string, Room>, ScrapeError>
    decreases |elements|
  {
    if elements == [] then Ok(rooms)
    else
      var named :- ReservationOf(elements[0], decode);
      AttachAll(Attach(rooms, named.0, named.1), elements[1..], decode)
  }

  /** The reservations, in element order, that the elements give for the
      room named `key`. */
  function ReservationsFor(key: string, elements: seq<ReservationElement>, decode: string -> Option<nat>): seq<Reservation>
    decreases |elements|
  {
    if elements == [] then []
    else
      var own := match ReservationOf(elements[0], decode)
        case Ok(named) => if named.0 == key then [named.1] else []
        case Err(_) => [];
      own + ReservationsFor(key, elements[1..], decode)
  }

  /** After the second loop the keys are unchanged and each room has gained
      exactly the reservations that name it, in order; reservations naming
      no room are dropped. */
  lemma {:induction false} AttachAllContents(rooms: map<string, Room>, elements: seq<ReservationElement>, decode: string -> Option<nat>)
    requires AttachAll(rooms, elements, decode).Ok?
    ensures AttachAll(rooms, elements, decode).value.Keys == rooms.Keys
    ensures forall k :: k in rooms ==>
              (AttachAll(rooms, elements, decode).value[k]
               == rooms[k].(reservations := rooms[k].reservations + ReservationsFor(k, elements, decode)))
    decreases |elements|
  {
    if elements != [] {
      var named := ReservationOf(elements[0], decode).value;
      var next := Attach(rooms, named.0, named.1);
      var later := elements[1..];
      assert AttachAll(rooms, elements, decode) == AttachAll(next, later, decode);
      AttachAllContents(next, later, decode);
      forall k | k in rooms
        ensures AttachAll(next, later, decode).value[k]
             == rooms[k].(reservations := rooms[k].reservations + ReservationsFor(k, elements, decode))
      {
        ReservationsForFirst(k, elements, decode);
        AttachThenAppend(rooms, named.0, named.1, k, ReservationsFor(k, later, decode));
      }
    }
  }

  /** For one room: attaching a reservation and then appending `later`
      appends the reservation's share followed by `later`. */
  lemma AttachThenAppend(rooms: map<string, Room>, roomName: string, reservation: Reservation, key: string, later: seq<Reservation>)
    requires key in rooms
    ensures var next := Attach(rooms, roomName, reservation);
      next[key].(reservations := next[key].reservations + later)
      == rooms[key].(reservations := rooms[key].reservations + ((if roomName == key then [reservation] else []) + later))
  {
    if roomName == key {
      assert rooms[key].reservations + [reservation] + later == rooms[key].reservations + ([reservation] + later);
    } else {
      assert [] + later == later;
    }
  }

  /** The first element's share of `ReservationsFor`. */
  lemma ReservationsForFirst(key: string, elements: seq<ReservationElement>, decode: string -> Option<nat>)
    requires elements != [] && ReservationOf(elements[0], decode).Ok?
    ensures var named := ReservationOf(elements[0], decode).value;
      ReservationsFor(key, elements, decode)
      == (if named.0 == key then [named.1] else []) + ReservationsFor(key, elements[1..], decode)
  {
  }

  /** The whole scrape after the page has been read. */
  function Scrape(rows: seq<RoomRow>, elements: seq<ReservationElement>, decode: string -> Option<nat>): Result<map<string, Room>, ScrapeError> {
    var rooms :- InsertRooms(map[], rows);
    AttachAll(rooms, elements, decode)
  }

  /** What a successful scrape holds: one room per row name, filed under
      its name, carrying exactly the reservations that name it. */
  lemma ScrapeContents(rows: seq<RoomRow>, elements: seq<ReservationElement>, decode: string -> Option<nat>)
    requires Scrape(rows, elements, decode).Ok?
    ensures Scrape(rows, elements, decode).value.Keys == RowNames(rows)
    ensures KeyedByName(Scrape(rows, elements, decode).value)
    ensures forall k :: k in Scrape(rows, elements, decode).value
              ==> Scrape(rows, elements, decode).value[k].reservations == ReservationsFor(k, elements, decode)
    ensures forall k :: k in Scrape(rows, elements, decode).value ==>
              LastRowNamed(rows, k).Some?
              && RoomOf(rows[LastRowNamed(rows, k).value]) == Ok(Scrape(rows, elements, decode).value[k].(reservations := []))
  {
    var inserted := InsertRooms(map[], rows).value;
    InsertRoomsKeys(map[], rows);
    InsertRoomsLastRow(map[], rows);
    AttachAllContents(inserted, elements, decode);
    var result := Scrape(rows, elements, decode).value;
    forall k | k in result
      ensures LastRowNamed(rows, k).Some?
              && RoomOf(rows[LastRowNamed(rows, k).value]) == Ok(result[k].(reservations := []))
    {
      assert k in inserted;
      assert inserted[k].reservations == [];
    }
  }

  /** The second loop succeeds exactly when every element is accepted; when
      it fails, the error is that of the first element refused. */
  lemma {:induction false} AttachAllSucceeds(rooms: map<string, Room>, elements: seq<ReservationElement>, decode: string -> Option<nat>)
    ensures AttachAll(rooms, elements, decode).Ok? <==>
              forall i :: 0 <= i < |elements| ==> ReservationOf(elements[i], decode).Ok?
    ensures AttachAll(rooms, elements, decode).Err? ==>
              exists i :: 0 <= i < |elements|
                          && ReservationOf(elements[i], decode) == Err(AttachAll(rooms, elements, decode).error)
                          && forall j :: 0 <= j < i ==> ReservationOf(elements[j], decode).Ok?
    decreases |elements|
  {
    if elements != [] && ReservationOf(elements[0], decode).Ok? {
      var named := ReservationOf(elements[0], decode).value;
      var later := elements[1..];
      AttachAllSucceeds(Attach(rooms, named.0, named.1), later, decode);
      assert forall i :: 0 <= i < |later| ==> later[i] == elements[i + 1];
      if AttachAll(rooms, elements, decode).Err? {
        var i :| 0 <= i < |later| && ReservationOf(later[i], decode) == Err(AttachAll(rooms, elements, decode).error)
                 && forall j :: 0 <= j < i ==> ReservationOf(later[j], decode).Ok?;
        assert forall j :: 0 < j < i + 1 ==> ReservationOf(elements[j], decode) == ReservationOf(later[j - 1], decode);
        assert ReservationOf(elements[i + 1], decode) == Err(AttachAll(rooms, elements, decode).error);
      } else {
        forall i | 0 <= i < |elements| ensures ReservationOf(elements[i], decode).Ok? {
          if i > 0 {
            assert elements[i] == later[i - 1];
          }
        }
      }
    }
  }

  /** A scrape succeeds exactly when every row and every element is
      accepted. */
  lemma ScrapeSucceeds(rows: seq<RoomRow>, elements: seq<ReservationElement>, decode: string -> Option<nat>)
    ensures Scrape(rows, elements, decode).Ok? <==>
              (forall i :: 0 <= i < |rows| ==> RoomOf(rows[i]).Ok?)
              && (forall j :: 0 <= j < |elements| ==> ReservationOf(elements[j], decode).Ok?)
  {
    InsertRoomsSucceeds(map[], rows);
    if InsertRooms(map[], rows).Ok? {
      AttachAllSucceeds(InsertRooms(map[], rows).value, elements, decode);
    }
  }

  /** `scrape_rooms` from the read attributes on: the two loops over a
      mutable map, with `?` returning the first failure. */
  method ScrapeRooms(rows: seq<RoomRow>, elements: seq<ReservationElement>, decode: string -> Option<nat>)
    returns (r: Result<map<string, Room>, ScrapeError>)
    ensures r == Scrape(rows, elements, decode)
  {
    var rooms: map<string, Room> := map[];
    for i := 0 to |rows|
      invariant InsertRooms(map[], rows) == InsertRooms(rooms, rows[i..])
    {
      assert rows[i..][1..] == rows[i + 1..];
      var room :- RoomOf(rows[i]);
      rooms := rooms[room.name := room];
    }
    assert rows[|rows|..] == [];
    for i := 0 to |elements|
      invariant Scrape(rows, elements, decode) == AttachAll(rooms, elements[i..], decode)
    {
      assert elements[i..][1..] == elements[i + 1..];
      var named :- ReservationOf(elements[i], decode);
      if named.0 in rooms {
        var room := rooms[named.0];
        rooms := rooms[named.0 := room.(reservations := room.reservations + [named.1])];
      }
    }
    assert elements[|elements|..] == [];
    r := Ok(rooms);
  }
}
