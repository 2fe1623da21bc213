/**
 * The gap-finding sweep behind getFreeSlots: the bookings of one resource on
 * one day, sorted by start, are walked with a cursor that starts at the
 * window's start; each booking that starts after the cursor leaves a free slot
 * from the cursor to the booking's start, and the cursor then jumps to the
 * booking's end. What is left before the window's end is the last slot.
 */
module Sweep {
  import opened Model

  /** The bookings are in ascending order of start. */
  ghost predicate SortedByStart(bs: seq<Booking>) {
    forall p, q :: 0 <= p < q < |bs| ==> bs[p].start <= bs[q].start
  }

  /** No value occurs twice. */
  ghost predicate Distinct<T>(s: seq<T>) {
    forall x :: x in s ==> multiset(s)[x] == 1
  }

  /** No two bookings of the list (at different positions) meet. */
  ghost predicate PairwiseApart(bs: seq<Booking>) {
    forall i, j :: 0 <= i < |bs| && 0 <= j < |bs| && i != j ==> !Meets(bs[i].start, bs[i].end, bs[j])
  }

  /** Every booking of the list ends after it starts. */
  ghost predicate NonEmptyIntervals(bs: seq<Booking>) {
    forall i :: 0 <= i < |bs| ==> bs[i].start < bs[i].end
  }

  /**
   * The slots the sweep emits for the sorted bookings bs, with the cursor at
   * `cursor` and the day window ending at windowEnd. The cursor is replaced
   * by each booking's end, never maxed with it.
   */
  function SweepFrom(bs: seq<Booking>, cursor: int, windowEnd: int): (slots: seq<Slot>)
    ensures forall sl :: sl in slots ==> sl.start < sl.end
    decreases |bs|
  {
    if bs == [] then
      if cursor < windowEnd then [Slot(cursor, windowEnd)] else []
    else
      (if cursor < bs[0].start then [Slot(cursor, bs[0].start)] else [])
      + SweepFrom(bs[1..], bs[0].end, windowEnd)
  }

  /**
   * Where slots begin and end: a slot starts at the initial cursor or at the
   * end of one of the bookings, and ends at the start of one of the bookings
   * or at the window's end.
   */
  lemma {:induction false} SlotEndpoints(bs: seq<Booking>, cursor: int, windowEnd: int)
    ensures forall sl :: sl in SweepFrom(bs, cursor, windowEnd) ==>
              (sl.start == cursor || exists k :: 0 <= k < |bs| && sl.start == bs[k].end)
    ensures forall sl :: sl in SweepFrom(bs, cursor, windowEnd) ==>
              (sl.end == windowEnd || exists k :: 0 <= k < |bs| && sl.end == bs[k].start)
    decreases |bs|
  {
    if bs != [] {
      var tail := bs[1..];
      SlotEndpoints(tail, bs[0].end, windowEnd);
      var head := if cursor < bs[0].start then [Slot(cursor, bs[0].start)] else [];
      assert SweepFrom(bs, cursor, windowEnd) == head + SweepFrom(tail, bs[0].end, windowEnd);
      forall sl | sl in SweepFrom(tail, bs[0].end, windowEnd)
        ensures sl.start == cursor || exists k :: 0 <= k < |bs| && sl.start == bs[k].end
        ensures sl.end == windowEnd || exists k :: 0 <= k < |bs| && sl.end == bs[k].start
      {
        if sl.start != bs[0].end {
          var k :| 0 <= k < |tail| && sl.start == tail[k].end;
          assert sl.start == bs[k + 1].end;
        }
        if sl.end != windowEnd {
          var k :| 0 <= k < |tail| && sl.end == tail[k].start;
          assert sl.end == bs[k + 1].start;
        }
      }
    }
  }

  /** Two positions of a list without repeated values hold different values. */
  lemma DistinctAt<T>(s: seq<T>, i: int, j: int)
    requires Distinct(s)
    requires 0 <= i < j < |s|
    ensures s[i] != s[j]
  {
    assert s == s[..i] + [s[i]] + s[i + 1..j] + [s[j]] + s[j + 1..];
    assert multiset(s)[s[i]] >= 1 + multiset([s[j]])[s[i]];
  }

  /**
   * In a sorted list of bookings that are apart from each other and end after
   * they start, every booking after the first starts no earlier than the first
   * ends.
   */
  lemma FirstEndsBeforeRest(bs: seq<Booking>, k: int)
    requires SortedByStart(bs) && PairwiseApart(bs) && NonEmptyIntervals(bs)
    requires 0 < k < |bs|
    ensures bs[0].end <= bs[k].start
  {
    assert !Meets(bs[0].start, bs[0].end, bs[k]);
  }

  /**
   * The slots are free: when the swept bookings are sorted, apart from each
   * other and each ends after it starts, no emitted slot meets any of them.
   */
  lemma {:induction false} SweepSlotsAreFree(bs: seq<Booking>, cursor: int, windowEnd: int)
    requires SortedByStart(bs) && PairwiseApart(bs) && NonEmptyIntervals(bs)
    ensures forall sl, x :: sl in SweepFrom(bs, cursor, windowEnd) && x in bs ==> !Meets(sl.start, sl.end, x)
    decreases |bs|
  {
    if bs != [] {
      var tail := bs[1..];
      assert SortedByStart(tail) && NonEmptyIntervals(tail);
      assert PairwiseApart(tail) by {
        forall i, j | 0 <= i < |tail| && 0 <= j < |tail| && i != j
          ensures !Meets(tail[i].start, tail[i].end, tail[j])
        {
          assert tail[i] == bs[i + 1] && tail[j] == bs[j + 1];
        }
      }
      SweepSlotsAreFree(tail, bs[0].end, windowEnd);
      SlotEndpoints(tail, bs[0].end, windowEnd);
      var head := if cursor < bs[0].start then [Slot(cursor, bs[0].start)] else [];
      assert SweepFrom(bs, cursor, windowEnd) == head + SweepFrom(tail, bs[0].end, windowEnd);
      forall sl, x | sl in SweepFrom(bs, cursor, windowEnd) && x in bs
        ensures !Meets(sl.start, sl.end, x)
      {
        var i :| 0 <= i < |bs| && bs[i] == x;
        if sl in head {
          assert bs[0].start <= x.start;
        } else if i == 0 {
          if sl.start != bs[0].end {
            var k :| 0 <= k < |tail| && sl.start == tail[k].end;
            FirstEndsBeforeRest(bs, k + 1);
          }
        } else {
          assert x in tail by { assert tail[i - 1] == x; }
        }
      }
    }
  }

  /**
   * No free moment is lost: every moment from the cursor up to the window's
   * end that lies inside no booking lies inside one of the emitted slots,
   * whatever the bookings are. Either the moment comes before the next
   * booking's start, and the slot up to that start holds it, or it comes at
   * or after that booking's end, where the cursor moves next.
   */
  lemma {:induction false} SweepCovers(bs: seq<Booking>, cursor: int, windowEnd: int, t: int)
    requires cursor <= t < windowEnd
    requires forall i :: 0 <= i < |bs| ==> !(bs[i].start <= t < bs[i].end)
    ensures exists sl :: sl in SweepFrom(bs, cursor, windowEnd) && sl.start <= t < sl.end
    decreases |bs|
  {
    if bs == [] {
      assert Slot(cursor, windowEnd) in SweepFrom(bs, cursor, windowEnd);
    } else {
      var tail := bs[1..];
      var head := if cursor < bs[0].start then [Slot(cursor, bs[0].start)] else [];
      assert SweepFrom(bs, cursor, windowEnd) == head + SweepFrom(tail, bs[0].end, windowEnd);
      if t < bs[0].start {
        assert Slot(cursor, bs[0].start) in head;
      } else {
        assert bs[0].end <= t;
        forall i | 0 <= i < |tail| ensures !(tail[i].start <= t < tail[i].end) {
          assert tail[i] == bs[i + 1];
        }
        SweepCovers(tail, bs[0].end, windowEnd, t);
        var sl :| sl in SweepFrom(tail, bs[0].end, windowEnd) && sl.start <= t < sl.end;
        assert sl in SweepFrom(bs, cursor, windowEnd);
      }
    }
  }

  /** The slots come in ascending order, each ending no later than the next starts. */
  ghost predicate InOrder(slots: seq<Slot>) {
    forall p, q :: 0 <= p < q < |slots| ==> slots[p].end <= slots[q].start
  }

  /**
   * The slots are emitted in ascending order and do not overlap, as the
   * booking menu numbers them, when the swept bookings are sorted by start
   * and none ends before it starts.
   */
  lemma {:induction false} SweepInOrder(bs: seq<Booking>, cursor: int, windowEnd: int)
    requires SortedByStart(bs)
    requires forall i :: 0 <= i < |bs| ==> bs[i].start <= bs[i].end
    ensures InOrder(SweepFrom(bs, cursor, windowEnd))
    decreases |bs|
  {
    if bs != [] {
      var tail := bs[1..];
      assert SortedByStart(tail);
      assert forall i :: 0 <= i < |tail| ==> tail[i].start <= tail[i].end by {
        forall i | 0 <= i < |tail| ensures tail[i].start <= tail[i].end {
          assert tail[i] == bs[i + 1];
        }
      }
      SweepInOrder(tail, bs[0].end, windowEnd);
      SlotEndpoints(tail, bs[0].end, windowEnd);
      var rest := SweepFrom(tail, bs[0].end, windowEnd);
      forall sl | sl in rest ensures bs[0].start <= sl.start {
        if sl.start != bs[0].end {
          var k :| 0 <= k < |tail| && sl.start == tail[k].end;
          assert tail[k] == bs[k + 1];
        }
      }
      var head := if cursor < bs[0].start then [Slot(cursor, bs[0].start)] else [];
      var all := head + rest;
      assert SweepFrom(bs, cursor, windowEnd) == all;
      forall p, q | 0 <= p < q < |all| ensures all[p].end <= all[q].start {
        if p < |head| {
          assert all[q] == rest[q - |head|];
          assert all[q] in rest;
        } else {
          assert all[p] == rest[p - |head|] && all[q] == rest[q - |head|];
        }
      }
    }
  }

  /**
   * The sort getFreeSlots applies to the collected bookings, done in place:
   * afterwards they are in ascending order of start and are a permutation of
   * what was there before.
   */
  method SortByStart(a: array<Booking>)
    modifies a
    ensures SortedByStart(a[..])
    ensures multiset(a[..]) == old(multiset(a[..]))
  {
    var i := 0;
    while i < a.Length
      invariant 0 <= i <= a.Length
      invariant forall p, q :: 0 <= p < q < i ==> a[p].start <= a[q].start
      invariant multiset(a[..]) == old(multiset(a[..]))
    {
      InsertLast(a, i);
      i := i + 1;
    }
  }

  /** Moves a[i] leftwards into the sorted prefix a[..i]. */
  method InsertLast(a: array<Booking>, i: int)
    requires 0 <= i < a.Length
    requires forall p, q :: 0 <= p < q < i ==> a[p].start <= a[q].start
    modifies a
    ensures forall p, q :: 0 <= p < q <= i ==> a[p].start <= a[q].start
    ensures multiset(a[..]) == old(multiset(a[..]))
  {
    var j := i;
    while j > 0 && a[j - 1].start > a[j].start
      invariant 0 <= j <= i
      invariant forall p, q :: 0 <= p < q <= i && p != j && q != j ==> a[p].start <= a[q].start
      invariant forall q :: j < q <= i ==> a[j].start < a[q].start
      invariant multiset(a[..]) == old(multiset(a[..]))
    {
      Swap(a, j - 1, j);
      j := j - 1;
    }
  }

  /** Exchanges two elements of the array. */
  method Swap(a: array<Booking>, i: int, j: int)
    requires 0 <= i < j < a.Length
    modifies a
    ensures a[i] == old(a[j]) && a[j] == old(a[i])
    ensures forall m :: 0 <= m < a.Length && m != i && m != j ==> a[m] == old(a[m])
    ensures multiset(a[..]) == old(multiset(a[..]))
  {
    a[i], a[j] := a[j], a[i];
  }
}
