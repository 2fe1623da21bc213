/**
 * The booking store: an in-memory table of bookings keyed by id, with
 * overlap-checked create and update, checked lookup and delete, the per-user
 * filter, the next-id rule and the free-slot search.
 */
module BookingRepo {
  import opened Wrappers
  import opened Model
  import opened Sweep
  import Sets

  /** Why a booking operation was refused. */
  datatype BookingError =
    | BookingNotFound(id: int)   // "Booking with id <id> not found"
    | BookingExists(id: int)     // "Booking with id <id> already exists"
    | StartInPast                // "Booking start time cannot be in the past"
    | TimeNotValid               // "This time is not valid"

  /** Some stored booking meets [s, e]; this is exactly when isTimeValid(s, e) is false. */
  ghost predicate Conflicts(m: map<int, Booking>, s: int, e: int) {
    exists k :: k in m && Meets(s, e, m[k])
  }

  /** Every booking is stored under its own id. */
  ghost predicate KeyedById(m: map<int, Booking>) {
    forall k :: k in m ==> m[k].id == k
  }

  /** Booking b is the one stored under its id. */
  predicate Stored(m: map<int, Booking>, b: Booking) {
    b.id in m && m[b.id] == b
  }

  /** No two stored bookings meet, whatever their resources. */
  ghost predicate NoOverlap(m: map<int, Booking>) {
    forall i, j :: i in m && j in m && i != j ==> !Meets(m[i].start, m[i].end, m[j])
  }

  /** The free-slot search of day `date` for `res` looks at booking b. */
  predicate IsConsidered(b: Booking, date: int, res: Resource) {
    DayOf(b.start) == date && b.resource == res
  }

  /**
   * `order` is an order in which getFreeSlots may sweep the store m: each
   * booking of resource res that starts on day `date` exactly once, sorted by
   * start. Ties in start are ordered arbitrarily, as the hash map's iteration
   * order leaves them.
   */
  ghost predicate IsSweepOrder(order: seq<Booking>, m: map<int, Booking>, date: int, res: Resource) {
    && SortedByStart(order)
    && Distinct(order)
    && (forall b :: b in order ==> Stored(m, b) && IsConsidered(b, date, res))
    && (forall k :: k in m && IsConsidered(m[k], date, res) ==> m[k] in order)
  }

  /**
   * A store without overlaps that is keyed by id sweeps a list of bookings
   * that are apart from each other.
   */
  lemma StoredBookingsApart(m: map<int, Booking>, order: seq<Booking>)
    requires KeyedById(m) && NoOverlap(m)
    requires Distinct(order)
    requires forall b :: b in order ==> Stored(m, b)
    ensures PairwiseApart(order)
  {
    forall i, j | 0 <= i < |order| && 0 <= j < |order| && i != j
      ensures !Meets(order[i].start, order[i].end, order[j])
    {
      if i < j { DistinctAt(order, i, j); } else { DistinctAt(order, j, i); }
      assert Stored(m, order[i]) && Stored(m, order[j]);
    }
  }

  /** When no stored booking is under consideration, the sweep order is empty. */
  lemma NothingConsidered(m: map<int, Booking>, order: seq<Booking>, date: int, res: Resource)
    requires IsSweepOrder(order, m, date, res)
    ensures (forall k :: k in m ==> !IsConsidered(m[k], date, res)) ==> order == []
  {
    if order != [] {
      assert order[0] in order;
    }
  }

  /**
   * The slots getFreeSlots returns are free: over a store without overlaps, if
   * every booking under consideration ends after it starts, no returned slot
   * meets any of them.
   */
  lemma FreeSlotsAreFree(m: map<int, Booking>, order: seq<Booking>, date: int, res: Resource,
                         windowStart: int, windowEnd: int)
    requires KeyedById(m) && NoOverlap(m)
    requires IsSweepOrder(order, m, date, res)
    requires forall k :: k in m && IsConsidered(m[k], date, res) ==> m[k].start < m[k].end
    ensures forall sl, k :: sl in SweepFrom(order, windowStart, windowEnd) && k in m && IsConsidered(m[k], date, res)
              ==> !Meets(sl.start, sl.end, m[k])
  {
    StoredBookingsApart(m, order);
    forall i | 0 <= i < |order| ensures order[i].start < order[i].end {
      assert order[i] in order;
      assert Stored(m, order[i]);
    }
    SweepSlotsAreFree(order, windowStart, windowEnd);
    forall sl, k | sl in SweepFrom(order, windowStart, windowEnd) && k in m && IsConsidered(m[k], date, res)
      ensures !Meets(sl.start, sl.end, m[k])
    {
      assert m[k] in order;
    }
  }

  /**
   * No free moment is lost: every moment of the window inside none of the
   * bookings under consideration lies inside a returned slot.
   */
  lemma FreeMomentsAreCovered(m: map<int, Booking>, order: seq<Booking>, date: int, res: Resource,
                              windowStart: int, windowEnd: int, t: int)
    requires IsSweepOrder(order, m, date, res)
    requires windowStart <= t < windowEnd
    requires forall k :: k in m && IsConsidered(m[k], date, res) ==> !(m[k].start <= t < m[k].end)
    ensures exists sl :: sl in SweepFrom(order, windowStart, windowEnd) && sl.start <= t < sl.end
  {
    forall i | 0 <= i < |order| ensures !(order[i].start <= t < order[i].end) {
      assert order[i] in order;
      assert Stored(m, order[i]);
    }
    SweepCovers(order, windowStart, windowEnd, t);
  }

  /**
   * The returned slots come in ascending order and do not overlap, provided
   * no booking under consideration ends before it starts.
   */
  lemma FreeSlotsInOrder(m: map<int, Booking>, order: seq<Booking>, date: int, res: Resource,
                         windowStart: int, windowEnd: int)
    requires IsSweepOrder(order, m, date, res)
    requires forall k :: k in m && IsConsidered(m[k], date, res) ==> m[k].start <= m[k].end
    ensures InOrder(SweepFrom(order, windowStart, windowEnd))
  {
    forall i | 0 <= i < |order| ensures order[i].start <= order[i].end {
      assert order[i] in order;
      assert Stored(m, order[i]);
    }
    SweepInOrder(order, windowStart, windowEnd);
  }

  /** The booking store. */
  class BookingRepository {
    var bookings: map<int, Booking>

    /** Bookings are keyed by their ids and no two of them meet. */
    ghost predicate Valid()
      reads this
    {
      KeyedById(bookings) && NoOverlap(bookings)
    }

    constructor ()
      ensures Valid() && bookings == map[]
    {
      bookings := map[];
    }

    /**
     * All stored bookings, one per id, in the hash map's iteration order
     * (which the model leaves unspecified).
     */
    method GetAllBookings() returns (r: seq<Booking>)
      requires Valid()
      ensures forall b :: b in r ==> Stored(bookings, b)
      ensures forall k :: k in bookings ==> bookings[k] in r
      ensures Distinct(r) && |r| == |bookings|
    {
      r := [];
      var rest := bookings.Keys;
      while rest != {}
        invariant rest <= bookings.Keys
        invariant forall b :: b in r ==> Stored(bookings, b) && b.id !in rest
        invariant forall k :: k in bookings && k !in rest ==> bookings[k] in r
        invariant Distinct(r) && |r| + |rest| == |bookings|
        decreases |rest|
      {
        Sets.HasElement(rest);
        var k :| k in rest;
        r := r + [bookings[k]];
        rest := rest - {k};
      }
    }

    /** The stored bookings whose user is the very same user object. */
    method GetBookingsForUser(user: User) returns (r: seq<Booking>)
      requires Valid()
      ensures forall b :: b in r ==> Stored(bookings, b) && b.user == user
      ensures forall k :: k in bookings && bookings[k].user == user ==> bookings[k] in r
      ensures Distinct(r)
    {
      r := [];
      var rest := bookings.Keys;
      while rest != {}
        invariant rest <= bookings.Keys
        invariant forall b :: b in r ==> Stored(bookings, b) && b.user == user && b.id !in rest
        invariant forall k :: k in bookings && k !in rest && bookings[k].user == user ==> bookings[k] in r
        invariant Distinct(r)
        decreases |rest|
      {
        Sets.HasElement(rest);
        var k :| k in rest;
        var booking := bookings[k];
        if booking.user == user {
          r := r + [booking];
        }
        rest := rest - {k};
      }
    }

    /** The booking stored under id, or the "not found" error. */
    function GetBooking(id: int): (r: Result<Booking, BookingError>)
      reads this
      requires Valid()
      ensures r.Ok? <==> id in bookings
      ensures r.Ok? ==> r.value == bookings[id] && r.value.id == id
      ensures r.Err? ==> r.error == BookingNotFound(id)
    {
      if id !in bookings then Err(BookingNotFound(id)) else Ok(bookings[id])
    }

    /**
     * Stores a booking after three checks, in this order: the id is not yet
     * taken, the start is not before now, and no stored booking of any
     * resource meets the booking's interval. A failed check changes nothing.
     */
    method CreateBooking(booking: Booking, now: int) returns (r: Outcome<BookingError>)
      requires Valid()
      modifies this
      ensures Valid()
      ensures booking.id in old(bookings) ==> r == Fail(BookingExists(booking.id))
      ensures booking.id !in old(bookings) && IsInPast(booking.start, now) ==> r == Fail(StartInPast)
      ensures (booking.id !in old(bookings) && !IsInPast(booking.start, now)
               && Conflicts(old(bookings), booking.start, booking.end)) ==> r == Fail(TimeNotValid)
      ensures r.Pass? <==> booking.id !in old(bookings) && !IsInPast(booking.start, now)
                           && !Conflicts(old(bookings), booking.start, booking.end)
      ensures r.Pass? ==> bookings == old(bookings)[booking.id := booking]
      ensures r.Fail? ==> bookings == old(bookings)
    {
      if booking.id in bookings {
        return Fail(BookingExists(booking.id));
      }
      if IsInPast(booking.start, now) {
        return Fail(StartInPast);
      }
      var valid := IsTimeValid(booking.start, booking.end);
      if !valid {
        return Fail(TimeNotValid);
      }
      InsertKeepsInvariant(bookings, booking);
      bookings := bookings[booking.id := booking];
      r := Pass;
    }

    /**
     * Replaces the booking stored under the booking's id. The id must be
     * present; the new interval is checked against every stored booking,
     * including the old version of this one, and the start is not compared
     * with now. A failed check changes nothing.
     */
    method UpdateBooking(booking: Booking) returns (r: Outcome<BookingError>)
      requires Valid()
      modifies this
      ensures Valid()
      ensures booking.id !in old(bookings) ==> r == Fail(BookingNotFound(booking.id))
      ensures (booking.id in old(bookings) && Conflicts(old(bookings), booking.start, booking.end))
              ==> r == Fail(TimeNotValid)
      ensures r.Pass? <==> booking.id in old(bookings) && !Conflicts(old(bookings), booking.start, booking.end)
      ensures r.Pass? ==> bookings == old(bookings)[booking.id := booking]
      ensures r.Fail? ==> bookings == old(bookings)
    {
      if booking.id !in bookings {
        return Fail(BookingNotFound(booking.id));
      }
      var valid := IsTimeValid(booking.start, booking.end);
      if !valid {
        return Fail(TimeNotValid);
      }
      InsertKeepsInvariant(bookings, booking);
      bookings := bookings[booking.id := booking];
      r := Pass;
    }

    /** isTimeValid: no stored booking, whatever its resource, meets [s, e]. */
    method IsTimeValid(s: int, e: int) returns (valid: bool)
      ensures valid <==> !Conflicts(bookings, s, e)
    {
      var rest := bookings.Keys;
      while rest != {}
        invariant rest <= bookings.Keys
        invariant forall k :: k in bookings && k !in rest ==> !Meets(s, e, bookings[k])
        decreases |rest|
      {
        Sets.HasElement(rest);
        var k :| k in rest;
        if Meets(s, e, bookings[k]) {
          return false;
        }
        rest := rest - {k};
      }
      return true;
    }

    /** Free slots of a workspace on day `date`, in a window from 00:00 to 23:59. */
    method GetFreeSlotsForWorkspace(date: int, workspace: Workspace) returns (slots: seq<Slot>, ghost order: seq<Booking>)
      requires Valid()
      ensures IsSweepOrder(order, bookings, date, WorkspaceRes(workspace))
      ensures slots == SweepFrom(order, AtTime(date, 0, 0), AtTime(date, 23, 59))
      ensures (forall k :: k in bookings ==> !IsConsidered(bookings[k], date, WorkspaceRes(workspace)))
              ==> slots == [Slot(AtTime(date, 0, 0), AtTime(date, 23, 59))]
    {
      slots, order := FreeSlots(date, WorkspaceRes(workspace), AtTime(date, 0, 0), AtTime(date, 23, 59));
      NothingConsidered(bookings, order, date, WorkspaceRes(workspace));
    }

    /** Free slots of a conference room on day `date`, in a window from 09:00 to 18:00. */
    method GetFreeSlotsForRoom(date: int, room: ConferenceRoom) returns (slots: seq<Slot>, ghost order: seq<Booking>)
      requires Valid()
      ensures IsSweepOrder(order, bookings, date, RoomRes(room))
      ensures slots == SweepFrom(order, AtTime(date, 9, 0), AtTime(date, 18, 0))
      ensures (forall k :: k in bookings ==> !IsConsidered(bookings[k], date, RoomRes(room)))
              ==> slots == [Slot(AtTime(date, 9, 0), AtTime(date, 18, 0))]
    {
      slots, order := FreeSlots(date, RoomRes(room), AtTime(date, 9, 0), AtTime(date, 18, 0));
      NothingConsidered(bookings, order, date, RoomRes(room));
    }

    /**
     * The body both getFreeSlots overloads share: collect the bookings of
     * `res` that start on `date`, sort them by start, and sweep the window.
     */
    method FreeSlots(date: int, res: Resource, windowStart: int, windowEnd: int)
      returns (slots: seq<Slot>, ghost order: seq<Booking>)
      requires Valid()
      ensures IsSweepOrder(order, bookings, date, res)
      ensures slots == SweepFrom(order, windowStart, windowEnd)
      ensures forall sl :: sl in slots ==> sl.start < sl.end
    {
      var found := BookingsForDate(date, res);
      var a := new Booking[|found|](i requires 0 <= i < |found| => found[i]);
      assert a[..] == found;
      SortByStart(a);
      order := a[..];
      PermutationKeepsMembers(found, order);
      slots := SweepSorted(a[..], windowStart, windowEnd);
    }

    /** The bookings of `res` that start on day `date`, each once, in iteration order. */
    method BookingsForDate(date: int, res: Resource) returns (found: seq<Booking>)
      requires Valid()
      ensures forall b :: b in found ==> Stored(bookings, b) && IsConsidered(b, date, res)
      ensures forall k :: k in bookings && IsConsidered(bookings[k], date, res) ==> bookings[k] in found
      ensures Distinct(found)
    {
      found := [];
      var rest := bookings.Keys;
      while rest != {}
        invariant rest <= bookings.Keys
        invariant forall b :: b in found ==> Stored(bookings, b) && IsConsidered(b, date, res) && b.id !in rest
        invariant forall k :: k in bookings && k !in rest && IsConsidered(bookings[k], date, res) ==> bookings[k] in found
        invariant Distinct(found)
        decreases |rest|
      {
        Sets.HasElement(rest);
        var k :| k in rest;
        var booking := bookings[k];
        if IsConsidered(booking, date, res) {
          found := found + [booking];
        }
        rest := rest - {k};
      }
    }

    /** 1 for an empty store, otherwise one more than the largest id. */
    function GetNextBookingId(): (id: int)
      reads this
      ensures bookings == map[] ==> id == 1
      ensures bookings != map[] ==> id - 1 in bookings
      ensures forall k :: k in bookings ==> k < id
    {
      if bookings == map[] then 1 else Sets.MaxOf(bookings.Keys) + 1
    }

    /** Removes the booking stored under id, which must be present. */
    method DeleteBooking(id: int) returns (r: Outcome<BookingError>)
      requires Valid()
      modifies this
      ensures Valid()
      ensures r.Pass? <==> id in old(bookings)
      ensures r.Fail? ==> r.error == BookingNotFound(id) && bookings == old(bookings)
      ensures r.Pass? ==> bookings == old(bookings) - {id}
    {
      if id !in bookings {
        return Fail(BookingNotFound(id));
      }
      bookings := bookings - {id};
      r := Pass;
    }
  }

  /**
   * The cursor walk of getFreeSlots over bookings already sorted by start:
   * it emits exactly the slots SweepFrom describes.
   */
  method SweepSorted(sorted: seq<Booking>, windowStart: int, windowEnd: int) returns (slots: seq<Slot>)
    ensures slots == SweepFrom(sorted, windowStart, windowEnd)
  {
    var cursor := windowStart;
    slots := [];
    var i := 0;
    while i < |sorted|
      invariant 0 <= i <= |sorted|
      invariant slots + SweepFrom(sorted[i..], cursor, windowEnd) == SweepFrom(sorted, windowStart, windowEnd)
    {
      assert sorted[i..][1..] == sorted[i + 1..];
      var bookingStart := sorted[i].start;
      if cursor < bookingStart {
        slots := slots + [Slot(cursor, bookingStart)];
      }
      cursor := sorted[i].end;
      i := i + 1;
    }
    if cursor < windowEnd {
      slots := slots + [Slot(cursor, windowEnd)];
    }
  }

  /** A permutation has the same members, and no repeats if the original had none. */
  lemma PermutationKeepsMembers<T>(s: seq<T>, t: seq<T>)
    requires multiset(s) == multiset(t)
    ensures forall x :: x in t <==> x in s
    ensures Distinct(s) ==> Distinct(t)
  {
    forall x ensures x in t <==> x in s {
      assert x in t <==> x in multiset(t);
      assert x in s <==> x in multiset(s);
    }
  }

  /**
   * Storing a booking that meets no stored booking under its own id keeps the
   * store keyed by id and free of overlaps, whether the id was new or not.
   */
  lemma InsertKeepsInvariant(m: map<int, Booking>, b: Booking)
    requires KeyedById(m) && NoOverlap(m)
    requires !Conflicts(m, b.start, b.end)
    ensures KeyedById(m[b.id := b]) && NoOverlap(m[b.id := b])
  {
    var m' := m[b.id := b];
    forall i, j | i in m' && j in m' && i != j
      ensures !Meets(m'[i].start, m'[i].end, m'[j])
    {
      if i == b.id {
        assert !Meets(b.start, b.end, m[j]);
      } else if j == b.id {
        assert !Meets(b.start, b.end, m[i]);
      }
    }
  }
}
