/** The availability engine, the loop in `print_free_rooms`
    (src/lib.rs:82-100) with the printing taken out: which rooms have no
    reservation that the three strict-comparison clauses flag for the
    window. */
module Availability {
  import opened Rooms

  /** The source's conflict test for one reservation and the window from
      `windowStart` to `windowEnd` (seconds since midnight). Every comparison
      is strict, so sharing an endpoint is never a conflict by itself. */
  predicate Conflicts(reservation: Reservation, windowStart: nat, windowEnd: nat) {
    || (windowStart > reservation.start && windowStart < reservation.end)  // starts during the reservation
    || (windowEnd > reservation.start && windowEnd < reservation.end)      // ends during it
    || (windowStart < reservation.start && windowEnd > reservation.end)    // the reservation lies inside
  }

  /** No reservation of the room conflicts with the window. */
  predicate IsFree(room: Room, windowStart: nat, windowEnd: nat) {
    forall i :: 0 <= i < |room.reservations| ==> !Conflicts(room.reservations[i], windowStart, windowEnd)
  }

  /** The rooms, under their keys, that are free for the window. */
  function FreeRoomsOf(rooms: map<string, Room>, windowStart: nat, windowEnd: nat): map<string, Room> {
    map k | k in rooms && IsFree(rooms[k], windowStart, windowEnd) :: rooms[k]
  }

  /** The inner loop: `free` starts true and the scan stops at the first
      conflicting reservation. */
  method RoomIsFree(room: Room, windowStart: nat, windowEnd: nat) returns (free: bool)
    ensures free <==> IsFree(room, windowStart, windowEnd)
  {
    free := true;
    for i := 0 to |room.reservations|
      invariant forall j :: 0 <= j < i ==> !Conflicts(room.reservations[j], windowStart, windowEnd)
    {
      if Conflicts(room.reservations[i], windowStart, windowEnd) {
        free := false;
        break;
      }
    }
  }

  /** The outer loop over the map, in whatever order it yields its keys;
      the free rooms are collected instead of printed. */
  method FreeRooms(rooms: map<string, Room>, windowStart: nat, windowEnd: nat) returns (free: map<string, Room>)
    ensures free == FreeRoomsOf(rooms, windowStart, windowEnd)
  {
    free := map[];
    var unvisited := rooms.Keys;
    while unvisited != {}
      invariant unvisited <= rooms.Keys
      invariant free == map k | k in rooms && k !in unvisited && IsFree(rooms[k], windowStart, windowEnd) :: rooms[k]
      decreases |unvisited|
    {
      var key :| key in unvisited;
      var roomFree := RoomIsFree(rooms[key], windowStart, windowEnd);
      if roomFree {
        free := free[key := rooms[key]];
      }
      unvisited := unvisited - {key};
    }
  }

  /** For well-formed intervals the source's test only flags genuine
      overlaps. */
  lemma ConflictMeansOverlap(reservation: Reservation, windowStart: nat, windowEnd: nat)
    requires windowStart < windowEnd && reservation.start < reservation.end
    requires Conflicts(reservation, windowStart, windowEnd)
    ensures windowStart < reservation.end && reservation.start < windowEnd
  {
  }

  /** Exactly which overlaps the test misses: for well-formed intervals it
      flags an overlap unless the window covers the reservation and shares
      its start or its end. */
  lemma ConflictsExactly(reservation: Reservation, windowStart: nat, windowEnd: nat)
    requires windowStart < windowEnd && reservation.start < reservation.end
    ensures Conflicts(reservation, windowStart, windowEnd) <==>
      && windowStart < reservation.end && reservation.start < windowEnd
      && !(windowStart <= reservation.start && reservation.end <= windowEnd
           && (windowStart == reservation.start || windowEnd == reservation.end))
  {
  }

  /** A window that ends where the reservation starts, or starts where it
      ends, does not conflict. */
  lemma TouchingWindowIsFree(reservation: Reservation, windowStart: nat, windowEnd: nat)
    requires windowStart <= windowEnd && reservation.start <= reservation.end
    requires windowEnd == reservation.start || windowStart == reservation.end
    ensures !Conflicts(reservation, windowStart, windowEnd)
  {
  }

  /** A window equal to the reservation's interval is not flagged. */
  lemma IdenticalWindowIsFree(reservation: Reservation)
    ensures !Conflicts(reservation, reservation.start, reservation.end)
  {
  }

  /** Attaching a reservation to a room can only take that room out of the
      free set, and does so exactly when the new reservation conflicts. */
  lemma AttachFreeStatus(rooms: map<string, Room>, roomName: string, reservation: Reservation, windowStart: nat, windowEnd: nat, key: string)
    requires key in rooms
    ensures var after := FreeRoomsOf(Attach(rooms, roomName, reservation), windowStart, windowEnd);
      key in after <==>
        (key in FreeRoomsOf(rooms, windowStart, windowEnd)
         && (key == roomName ==> !Conflicts(reservation, windowStart, windowEnd)))
  {
    if key == roomName {
      var before := rooms[key].reservations;
      var now := Attach(rooms, roomName, reservation)[key].reservations;
      assert now == before + [reservation];
      assert now[|before|] == reservation;
      assert forall i :: 0 <= i < |before| ==> now[i] == before[i];
    }
  }

  /** The rooms the source reports form a sub-map of its rooms. */
  lemma FreeRoomsAreRooms(rooms: map<string, Room>, windowStart: nat, windowEnd: nat)
    ensures FreeRoomsOf(rooms, windowStart, windowEnd).Keys <= rooms.Keys
    ensures forall k :: k in FreeRoomsOf(rooms, windowStart, windowEnd) ==> FreeRoomsOf(rooms, windowStart, windowEnd)[k] == rooms[k]
  {
  }

  /** The four overlap cases for a reservation from 1000 to 2000. */
  lemma OverlapExamples()
    ensures !Conflicts(Reservation(1000, 2000), 500, 1000)
    ensures Conflicts(Reservation(1000, 2000), 1000, 1500)
    ensures Conflicts(Reservation(1000, 2000), 500, 2500)
    ensures !Conflicts(Reservation(1000, 2000), 2000, 2500)
    ensures !Conflicts(Reservation(1000, 2000), 1000, 2500)
  {
  }
}
