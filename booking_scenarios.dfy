/**
 * Concrete days worked through the free-slot sweep and the overlap check,
 * showing what the store does at its edges: the slots around one booking, a
 * room booking before opening time, a zero-length booking, and the overlap
 * check ignoring the resource.
 */
module BookingScenarios {
  import opened Model
  import opened Sweep
  import opened BookingRepo

  /** A room booked 10:00-12:00 leaves 09:00-10:00 and 12:00-18:00 free. */
  lemma RoomDayAroundOneBooking(d: int, u: User, c: ConferenceRoom)
    ensures SweepFrom([Booking(1, u, RoomRes(c), AtTime(d, 10, 0), AtTime(d, 12, 0))], AtTime(d, 9, 0), AtTime(d, 18, 0))
            == [Slot(AtTime(d, 9, 0), AtTime(d, 10, 0)), Slot(AtTime(d, 12, 0), AtTime(d, 18, 0))]
  {
  }

  /** A workspace day with no bookings is one slot from 00:00 to 23:59. */
  lemma EmptyWorkspaceDay(d: int)
    ensures SweepFrom([], AtTime(d, 0, 0), AtTime(d, 23, 59)) == [Slot(AtTime(d, 0, 0), AtTime(d, 23, 59))]
  {
  }

  /**
   * A room booking 08:00-08:30 lies before opening, yet it moves the cursor
   * back: the one free slot then starts at 08:30, before the 09:00 opening.
   */
  lemma EarlyRoomBookingOpensSlotBeforeOpening(d: int, u: User, c: ConferenceRoom)
    ensures SweepFrom([Booking(1, u, RoomRes(c), AtTime(d, 8, 0), AtTime(d, 8, 30))], AtTime(d, 9, 0), AtTime(d, 18, 0))
            == [Slot(AtTime(d, 8, 30), AtTime(d, 18, 0))]
    ensures AtTime(d, 8, 30) < AtTime(d, 9, 0)
  {
  }

  /**
   * The overlap check looks at every stored booking, whatever its resource:
   * a workspace booked 10:00-12:00 refuses a conference room for the same hours.
   */
  lemma OverlapIgnoresResource(d: int, u: User, w: Workspace, c: ConferenceRoom)
    ensures var m := map[1 := Booking(1, u, WorkspaceRes(w), AtTime(d, 10, 0), AtTime(d, 12, 0))];
            Conflicts(m, AtTime(d, 10, 0), AtTime(d, 12, 0))
            && !IsConsidered(m[1], d, RoomRes(c))
  {
    var m := map[1 := Booking(1, u, WorkspaceRes(w), AtTime(d, 10, 0), AtTime(d, 12, 0))];
    assert Meets(AtTime(d, 10, 0), AtTime(d, 12, 0), m[1]);
  }

  /**
   * A zero-length booking 10:00-10:00 meets nothing, so it is stored beside a
   * 10:00-12:00 booking of the same room; when the sweep meets it second it
   * moves the cursor back to 10:00 and reports 10:00-18:00 as free, a slot that
   * meets the 10:00-12:00 booking. Hence the positive-length requirement of
   * FreeSlotsAreFree.
   */
  lemma {:induction false} ZeroLengthBookingBreaksFreeness(d: int, u: User, c: ConferenceRoom)
    ensures var a := Booking(1, u, RoomRes(c), AtTime(d, 10, 0), AtTime(d, 12, 0));
            var z := Booking(2, u, RoomRes(c), AtTime(d, 10, 0), AtTime(d, 10, 0));
            var m := map[1 := a, 2 := z];
            && KeyedById(m) && NoOverlap(m)
            && IsSweepOrder([a, z], m, d, RoomRes(c))
            && Slot(AtTime(d, 10, 0), AtTime(d, 18, 0)) in SweepFrom([a, z], AtTime(d, 9, 0), AtTime(d, 18, 0))
            && Meets(AtTime(d, 10, 0), AtTime(d, 18, 0), a)
  {
    var a := Booking(1, u, RoomRes(c), AtTime(d, 10, 0), AtTime(d, 12, 0));
    var z := Booking(2, u, RoomRes(c), AtTime(d, 10, 0), AtTime(d, 10, 0));
    var m := map[1 := a, 2 := z];
    assert DayOf(AtTime(d, 10, 0)) == d;
    assert a != z;
    assert multiset([a, z])[a] == 1 && multiset([a, z])[z] == 1;
    assert SweepFrom([z], AtTime(d, 12, 0), AtTime(d, 18, 0)) == [Slot(AtTime(d, 10, 0), AtTime(d, 18, 0))];
    assert [a, z][1..] == [z];
  }

  /**
   * updateBooking checks the new interval against the booking's own stored
   * entry as well, so any new interval that meets the old one is refused.
   */
  lemma UpdateMeetsOwnOldEntry(m: map<int, Booking>, b: Booking)
    requires b.id in m && Meets(b.start, b.end, m[b.id])
    ensures Conflicts(m, b.start, b.end)
  {
  }

  /**
   * A room booking 19:00-20:00 lies after closing, yet the sweep still stops
   * at its start: the one free slot then runs from 09:00 to 19:00, past the
   * 18:00 closing time.
   */
  lemma LateRoomBookingExtendsSlotPastClosing(d: int, u: User, c: ConferenceRoom)
    ensures SweepFrom([Booking(1, u, RoomRes(c), AtTime(d, 19, 0), AtTime(d, 20, 0))], AtTime(d, 9, 0), AtTime(d, 18, 0))
            == [Slot(AtTime(d, 9, 0), AtTime(d, 19, 0))]
    ensures AtTime(d, 18, 0) < AtTime(d, 19, 0)
  {
  }

  /**
   * A booking that ends before it starts (10:00 to 08:00) meets nothing in an
   * empty store, so it can be stored; the sweep then moves the cursor back
   * to 08:00 and reports two slots that overlap. Hence the requirement of
   * FreeSlotsInOrder that no booking ends before it starts.
   */
  lemma ReversedBookingBreaksOrder(d: int, u: User, c: ConferenceRoom)
    ensures var b := Booking(1, u, RoomRes(c), AtTime(d, 10, 0), AtTime(d, 8, 0));
            && !Conflicts(map[], b.start, b.end)
            && SweepFrom([b], AtTime(d, 9, 0), AtTime(d, 18, 0))
               == [Slot(AtTime(d, 9, 0), AtTime(d, 10, 0)), Slot(AtTime(d, 8, 0), AtTime(d, 18, 0))]
            && !InOrder(SweepFrom([b], AtTime(d, 9, 0), AtTime(d, 18, 0)))
  {
    var b := Booking(1, u, RoomRes(c), AtTime(d, 10, 0), AtTime(d, 8, 0));
    var slots := SweepFrom([b], AtTime(d, 9, 0), AtTime(d, 18, 0));
    assert [b][1..] == [];
    assert SweepFrom([], AtTime(d, 8, 0), AtTime(d, 18, 0)) == [Slot(AtTime(d, 8, 0), AtTime(d, 18, 0))];
    assert slots == [Slot(AtTime(d, 9, 0), AtTime(d, 10, 0)), Slot(AtTime(d, 8, 0), AtTime(d, 18, 0))];
    assert slots[0].end > slots[1].start;
  }
}
