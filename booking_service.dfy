/**
 * The booking orchestration around the store: picking a resource from the
 * numbered menu, accepting a refined interval inside a chosen free slot,
 * committing it under the next id, cancelling unless the booking has ended,
 * naming a booking's room, and the store operations the service passes
 * through.
 */
module BookingServices {
  import opened Wrappers
  import opened Model
  import opened Sweep
  import opened BookingRepo

  /** What a menu number selects: going back, a resource to book, or nothing valid. */
  datatype MenuChoice = Back | Book(resource: Resource) | InvalidChoice

  /**
   * The menu lists workspaces as 1..|W| and conference rooms after them as
   * |W|+1..|W|+|C|; 0 goes back and every other number is refused.
   */
  function ChoiceToRoom(choice: int, workspaces: seq<Workspace>, rooms: seq<ConferenceRoom>): (r: MenuChoice)
    ensures r == Back <==> choice == 0
    ensures r.Book? <==> 1 <= choice <= |workspaces| + |rooms|
    ensures r.Book? ==> (r.resource.WorkspaceRes? <==> choice <= |workspaces|)
  {
    if choice == 0 then Back
    else if 0 < choice <= |workspaces| then Book(WorkspaceRes(workspaces[choice - 1]))
    else if |workspaces| < choice <= |workspaces| + |rooms| then Book(RoomRes(rooms[choice - |workspaces| - 1]))
    else InvalidChoice
  }

  /**
   * The numbers the menu prints select what they are printed next to:
   * workspace i is listed as i + 1 and conference room i as i + 1 + |W|.
   */
  lemma MenuNumbersSelectListedRooms(workspaces: seq<Workspace>, rooms: seq<ConferenceRoom>)
    ensures forall i :: 0 <= i < |workspaces| ==>
              ChoiceToRoom(i + 1, workspaces, rooms) == Book(WorkspaceRes(workspaces[i]))
    ensures forall i :: 0 <= i < |rooms| ==>
              ChoiceToRoom(i + 1 + |workspaces|, workspaces, rooms) == Book(RoomRes(rooms[i]))
  {
  }

  /**
   * The test the chosen start and end must pass against the selected slot:
   * start before end, start strictly after the slot's start and end strictly
   * before the slot's end.
   */
  predicate IsValidRefinement(slot: Slot, start: int, end: int)
    ensures IsValidRefinement(slot, start, end) ==> 1 <= end - start <= slot.end - slot.start - 2
  {
    start < end && start > slot.start && end < slot.end
  }

  /**
   * An accepted interval lies strictly inside its slot, so neither the slot
   * itself nor any interval sharing one of its bounds is accepted, and what
   * the slot does not meet the interval does not meet either.
   */
  lemma RefinementInsideSlot(slot: Slot, start: int, end: int, x: Booking)
    ensures IsValidRefinement(slot, start, end) ==> slot.start < start < end < slot.end
    ensures !IsValidRefinement(slot, slot.start, end) && !IsValidRefinement(slot, start, slot.end)
    ensures IsValidRefinement(slot, start, end) && !Meets(slot.start, slot.end, x) ==> !Meets(start, end, x)
  {
  }

  /**
   * An accepted interval inside a slot that getFreeSlots returned meets no
   * booking of that resource and day, provided the store holds no overlaps
   * and those bookings end after they start.
   */
  lemma RefinedIntervalIsFree(m: map<int, Booking>, order: seq<Booking>, date: int, res: Resource,
                              windowStart: int, windowEnd: int, slot: Slot, start: int, end: int)
    requires KeyedById(m) && NoOverlap(m)
    requires IsSweepOrder(order, m, date, res)
    requires forall k :: k in m && IsConsidered(m[k], date, res) ==> m[k].start < m[k].end
    requires slot in SweepFrom(order, windowStart, windowEnd)
    requires IsValidRefinement(slot, start, end)
    ensures forall k :: k in m && IsConsidered(m[k], date, res) ==> !Meets(start, end, m[k])
  {
    FreeSlotsAreFree(m, order, date, res, windowStart, windowEnd);
    forall k | k in m && IsConsidered(m[k], date, res) ensures !Meets(start, end, m[k]) {
      RefinementInsideSlot(slot, start, end, m[k]);
    }
  }

  /** The name of a booking's room by the kind of its resource; "Unknown Room" for anything else. */
  function GetRoomNameFromBooking(booking: Booking): (name: string)
    ensures booking.resource.WorkspaceRes? ==> name == booking.resource.workspace.name
    ensures booking.resource.RoomRes? ==> name == booking.resource.room.name
    ensures booking.resource.OtherRes? ==> name == "Unknown Room"
  {
    match booking.resource
    case WorkspaceRes(w) => w.name
    case RoomRes(c) => c.name
    case OtherRes => "Unknown Room"
  }

  /** A booking for a resource chosen from the menu is named after the chosen workspace or room. */
  lemma ChosenRoomName(choice: int, workspaces: seq<Workspace>, rooms: seq<ConferenceRoom>, booking: Booking)
    requires ChoiceToRoom(choice, workspaces, rooms).Book?
    requires booking.resource == ChoiceToRoom(choice, workspaces, rooms).resource
    ensures choice <= |workspaces| ==> GetRoomNameFromBooking(booking) == workspaces[choice - 1].name
    ensures choice > |workspaces| ==> GetRoomNameFromBooking(booking) == rooms[choice - |workspaces| - 1].name
  {
  }

  /** How a cancellation ended. */
  datatype CancelResult =
    | Canceled                        // "Booking canceled successfully."
    | EndAlreadyPassed                // "Cannot cancel booking. Booking end time has already passed."
    | CancelRefused(error: BookingError)

  class BookingService {
    const bookingRepository: BookingRepository

    ghost predicate Valid()
      reads this, bookingRepository
    {
      bookingRepository.Valid()
    }

    /** The service starts with a store of its own, new and empty. */
    constructor ()
      ensures fresh(bookingRepository) && bookingRepository.bookings == map[] && Valid()
    {
      bookingRepository := new BookingRepository();
    }

    /**
     * The commit after a refined interval was accepted: the booking takes the
     * store's next id and is handed to createBooking unchanged. That id is
     * never taken, so the duplicate-id check cannot be what refuses it.
     */
    method CommitBooking(user: User, room: Resource, start: int, end: int, now: int)
      returns (booking: Booking, r: Outcome<BookingError>)
      requires Valid()
      modifies bookingRepository
      ensures Valid()
      ensures booking == Booking(old(bookingRepository.GetNextBookingId()), user, room, start, end)
      ensures booking.id !in old(bookingRepository.bookings)
      ensures r.Fail? ==> !r.error.BookingExists?
      ensures IsInPast(start, now) ==> r == Fail(StartInPast)
      ensures !IsInPast(start, now) && Conflicts(old(bookingRepository.bookings), start, end) ==> r == Fail(TimeNotValid)
      ensures r.Pass? <==> !IsInPast(start, now) && !Conflicts(old(bookingRepository.bookings), start, end)
      ensures r.Pass? ==> bookingRepository.bookings == old(bookingRepository.bookings)[booking.id := booking]
      ensures r.Fail? ==> bookingRepository.bookings == old(bookingRepository.bookings)
    {
      booking := Booking(bookingRepository.GetNextBookingId(), user, room, start, end);
      r := bookingRepository.CreateBooking(booking, now);
    }

    /**
     * Cancels a booking unless now is strictly after its end; a booking whose
     * end is exactly now can still be cancelled. Cancelling deletes the
     * booking's id from the store.
     */
    method CancelBooking(booking: Booking, now: int) returns (r: CancelResult)
      requires Valid()
      modifies bookingRepository
      ensures Valid()
      ensures now > booking.end ==> r == EndAlreadyPassed && bookingRepository.bookings == old(bookingRepository.bookings)
      ensures now <= booking.end && booking.id in old(bookingRepository.bookings) ==>
                r == Canceled && bookingRepository.bookings == old(bookingRepository.bookings) - {booking.id}
      ensures now <= booking.end && booking.id !in old(bookingRepository.bookings) ==>
                r == CancelRefused(BookingNotFound(booking.id)) && bookingRepository.bookings == old(bookingRepository.bookings)
    {
      if now > booking.end {
        return EndAlreadyPassed;
      }
      var deleted := bookingRepository.DeleteBooking(booking.id);
      r := if deleted.Pass? then Canceled else CancelRefused(deleted.error);
    }

    /** getAllBookings: the store's bookings, one per id. */
    method GetAllBookings() returns (r: seq<Booking>)
      requires Valid()
      ensures forall b :: b in r ==> Stored(bookingRepository.bookings, b)
      ensures forall k :: k in bookingRepository.bookings ==> bookingRepository.bookings[k] in r
      ensures Distinct(r) && |r| == |bookingRepository.bookings|
    {
      r := bookingRepository.GetAllBookings();
    }

    /** deleteBooking: the store's effect and error. */
    method DeleteBooking(id: int) returns (r: Outcome<BookingError>)
      requires Valid()
      modifies bookingRepository
      ensures Valid()
      ensures r.Pass? <==> id in old(bookingRepository.bookings)
      ensures r.Fail? ==> r.error == BookingNotFound(id) && bookingRepository.bookings == old(bookingRepository.bookings)
      ensures r.Pass? ==> bookingRepository.bookings == old(bookingRepository.bookings) - {id}
    {
      r := bookingRepository.DeleteBooking(id);
    }

    /** createBooking: the store's checks, in the store's order, and its effect. */
    method CreateBooking(booking: Booking, now: int) returns (r: Outcome<BookingError>)
      requires Valid()
      modifies bookingRepository
      ensures Valid()
      ensures booking.id in old(bookingRepository.bookings) ==> r == Fail(BookingExists(booking.id))
      ensures booking.id !in old(bookingRepository.bookings) && IsInPast(booking.start, now) ==> r == Fail(StartInPast)
      ensures (booking.id !in old(bookingRepository.bookings) && !IsInPast(booking.start, now)
               && Conflicts(old(bookingRepository.bookings), booking.start, booking.end)) ==> r == Fail(TimeNotValid)
      ensures r.Pass? <==> booking.id !in old(bookingRepository.bookings) && !IsInPast(booking.start, now)
                           && !Conflicts(old(bookingRepository.bookings), booking.start, booking.end)
      ensures r.Fail? && r.error == TimeNotValid ==> Conflicts(old(bookingRepository.bookings), booking.start, booking.end)
      ensures r.Pass? ==> bookingRepository.bookings == old(bookingRepository.bookings)[booking.id := booking]
      ensures r.Fail? ==> bookingRepository.bookings == old(bookingRepository.bookings)
    {
      r := bookingRepository.CreateBooking(booking, now);
    }

    /** updateBooking: the store's checks and effect. */
    method UpdateBooking(booking: Booking) returns (r: Outcome<BookingError>)
      requires Valid()
      modifies bookingRepository
      ensures Valid()
      ensures booking.id !in old(bookingRepository.bookings) ==> r == Fail(BookingNotFound(booking.id))
      ensures r.Pass? <==> booking.id in old(bookingRepository.bookings)
                           && !Conflicts(old(bookingRepository.bookings), booking.start, booking.end)
      ensures r.Fail? && booking.id in old(bookingRepository.bookings) ==> r.error == TimeNotValid
      ensures r.Pass? ==> bookingRepository.bookings == old(bookingRepository.bookings)[booking.id := booking]
      ensures r.Fail? ==> bookingRepository.bookings == old(bookingRepository.bookings)
    {
      r := bookingRepository.UpdateBooking(booking);
    }
  }
}
