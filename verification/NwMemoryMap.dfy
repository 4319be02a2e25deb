/** Which reads the device's own memory map allows (webtilp/numworks_transport.js:175-187). */
module NwMemoryMap {

  datatype Segment = Segment(start: int, end: int, readable: bool)

  predicate Contains(s: Segment, a: int)
  {
    s.start <= a < s.end
  }

  /** Some readable segment holds the byte at `a`. */
  predicate Readable(segments: seq<Segment>, a: int)
  {
    exists s :: s in segments && s.readable && Contains(s, a)
  }

  ghost predicate AllReadable(segments: seq<Segment>, from: int, to: int)
  {
    forall a :: from <= a < to ==> Readable(segments, a)
  }

  /** No two different segments share a byte. */
  predicate Disjoint(segments: seq<Segment>)
  {
    forall s, t :: s in segments && t in segments && s != t ==> s.end <= t.start || t.end <= s.start
  }

  // ----- the copy in address order -----

  function Insert(s: Segment, sorted: seq<Segment>): seq<Segment>
  {
    if sorted == [] || s.start <= sorted[0].start then [s] + sorted else [sorted[0]] + Insert(s, sorted[1..])
  }

  function Sorted(segments: seq<Segment>): seq<Segment>
  {
    if segments == [] then [] else Insert(segments[0], Sorted(segments[1..]))
  }

  predicate Ascending(segments: seq<Segment>)
  {
    forall i, j :: 0 <= i < j < |segments| ==> segments[i].start <= segments[j].start
  }

  lemma {:induction false} InsertMeans(s: Segment, sorted: seq<Segment>)
    requires Ascending(sorted)
    ensures Ascending(Insert(s, sorted)) && multiset(Insert(s, sorted)) == multiset(sorted) + multiset{s}
  {
    hide Ascending;
    if sorted == [] || s.start <= sorted[0].start {
      FrontAscending(s, sorted);
    } else {
      var tail := sorted[1..];
      AscendingTail(sorted);
      InsertMeans(s, tail);
      assert sorted == [sorted[0]] + tail;
      ConsAscending(sorted[0], Insert(s, tail), s, tail);
    }
  }

  lemma FrontAscending(s: Segment, sorted: seq<Segment>)
    requires Ascending(sorted) && (sorted == [] || s.start <= sorted[0].start)
    ensures Ascending([s] + sorted)
  {
    var r := [s] + sorted;
    assert forall i :: 0 < i < |r| ==> r[i] == sorted[i - 1];
  }

  lemma AscendingTail(sorted: seq<Segment>)
    requires sorted != [] && Ascending(sorted)
    ensures Ascending(sorted[1..]) && forall t :: t in sorted[1..] ==> sorted[0].start <= t.start
  {
    var tail := sorted[1..];
    assert forall i :: 0 <= i < |tail| ==> tail[i] == sorted[i + 1];
  }

  lemma ConsAscending(head: Segment, rest: seq<Segment>, s: Segment, tail: seq<Segment>)
    requires Ascending(rest) && multiset(rest) == multiset(tail) + multiset{s}
    requires head.start <= s.start && forall t :: t in tail ==> head.start <= t.start
    ensures Ascending([head] + rest)
  {
    var r := [head] + rest;
    forall i | 0 <= i < |rest| ensures head.start <= rest[i].start {
      assert rest[i] in multiset(rest);
      assert rest[i] == s || rest[i] in multiset(tail);
    }
    assert forall i :: 0 < i < |r| ==> r[i] == rest[i - 1];
  }

  lemma {:induction false} SortedMeans(segments: seq<Segment>)
    ensures Ascending(Sorted(segments)) && multiset(Sorted(segments)) == multiset(segments)
  {
    hide Insert;
    if segments != [] {
      SortedMeans(segments[1..]);
      InsertMeans(segments[0], Sorted(segments[1..]));
      assert segments == [segments[0]] + segments[1..];
    }
  }

  lemma SameMembers(a: seq<Segment>, b: seq<Segment>)
    requires multiset(a) == multiset(b)
    ensures forall s :: s in a <==> s in b
  {
    assert forall s :: s in a <==> s in multiset(a);
    assert forall s :: s in b <==> s in multiset(b);
  }

  // ----- the walk -----

  function Min(a: int, b: int): int
  {
    if a <= b then a else b
  }

  /** From `cursor`, each segment either does not hold it, or refuses, or carries it on. */
  function Walk(segments: seq<Segment>, cursor: int, end: int): bool
  {
    if segments == [] then false
    else
      var s := segments[0];
      if !Contains(s, cursor) then Walk(segments[1..], cursor, end)
      else s.readable && (Min(end, s.end) == end || Walk(segments[1..], Min(end, s.end), end))
  }

  /** Of the segments that hold the byte at `a`, the first in `sorted` is readable. */
  predicate FirstReadable(sorted: seq<Segment>, a: int)
  {
    sorted != [] && if Contains(sorted[0], a) then sorted[0].readable else FirstReadable(sorted[1..], a)
  }

  ghost predicate AllFirstReadable(sorted: seq<Segment>, from: int, to: int)
  {
    forall a :: from <= a < to ==> FirstReadable(sorted, a)
  }

  lemma {:induction false} NothingHeldBefore(sorted: seq<Segment>, a: int)
    requires forall s :: s in sorted ==> a < s.start
    ensures !FirstReadable(sorted, a)
  {
    if sorted != [] {
      assert sorted[0] in sorted;
      NothingHeldBefore(sorted[1..], a);
    }
  }

  /** The walk over an ordered map goes through exactly when the first holder of every byte is readable. */
  lemma {:induction false} WalkIff(sorted: seq<Segment>, cursor: int, end: int)
    requires Ascending(sorted) && cursor < end
    ensures Walk(sorted, cursor, end) <==> AllFirstReadable(sorted, cursor, end)
  {
    hide Ascending;
    if sorted == [] {
      assert !FirstReadable(sorted, cursor);
    } else {
      var s, rest := sorted[0], sorted[1..];
      AscendingTail(sorted);
      var next := if Contains(s, cursor) then Min(end, s.end) else cursor;
      if s.start > cursor {
        NothingHeldBefore(rest, cursor);
        assert !FirstReadable(sorted, cursor) && !FirstReadable(rest, cursor);
      }
      assert forall a :: cursor <= a < next ==> FirstReadable(sorted, a) == s.readable;
      assert forall a :: next <= a < end && s.start <= cursor ==> FirstReadable(sorted, a) == FirstReadable(rest, a);
      if next < end {
        WalkIff(rest, next, end);
      }
      assert Contains(s, cursor) && !s.readable ==> !FirstReadable(sorted, cursor);
    }
  }

  lemma {:induction false} FirstReadableIsReadable(sorted: seq<Segment>, a: int)
    requires FirstReadable(sorted, a)
    ensures Readable(sorted, a)
  {
    if Contains(sorted[0], a) {
      assert sorted[0] in sorted;
    } else {
      FirstReadableIsReadable(sorted[1..], a);
      var t :| t in sorted[1..] && t.readable && Contains(t, a);
      assert t in sorted;
    }
  }

  /** `memoryMapAllowsRead` */
  predicate AllowsRead(segments: seq<Segment>, address: int, length: int)
  {
    length > 0 && address + length <= LIMIT && Walk(Sorted(segments), address, address + length)
  }

  const LIMIT := 0x1_0000_0000

  /**
   * Main result, for every map: a read is allowed exactly when it is a non-empty range below 4 GiB and, for each of its
   * bytes, the first segment in address order that holds it is readable. So an allowed read touches no other bytes than
   * readable ones.
   */
  lemma AllowsReadIff(segments: seq<Segment>, address: int, length: int)
    ensures AllowsRead(segments, address, length) <==>
      length > 0 && address + length <= LIMIT && AllFirstReadable(Sorted(segments), address, address + length)
    ensures AllowsRead(segments, address, length) ==> AllReadable(segments, address, address + length)
  {
    hide Walk, Sorted, FirstReadable;
    var sorted, end := Sorted(segments), address + length;
    SortedMeans(segments);
    SameMembers(sorted, segments);
    if length > 0 {
      WalkIff(sorted, address, end);
    }
    if AllowsRead(segments, address, length) {
      forall a | address <= a < end ensures Readable(segments, a) {
        FirstReadableIsReadable(sorted, a);
      }
    }
  }

  // ----- when readable is enough -----

  /** If any readable segment holds the byte at `a`, the first holder is readable. */
  predicate ClearAt(segments: seq<Segment>, a: int)
  {
    a < LIMIT && Readable(segments, a) ==> FirstReadable(Sorted(segments), a)
  }

  /** A finite test on the map itself: no readable byte at the edge of a segment is hidden by an unreadable one. */
  predicate Unshadowed(segments: seq<Segment>)
  {
    forall s :: s in segments ==> ClearAt(segments, s.start) && ClearAt(segments, s.end)
  }

  /** The largest edge up to `a`, from `floor` on. */
  function LastEdge(segments: seq<Segment>, a: int, floor: int): (b: int)
    requires floor <= a
    ensures floor <= b <= a
    ensures b == floor || exists s :: s in segments && (b == s.start || b == s.end)
    ensures forall s :: s in segments ==> (s.start <= a ==> s.start <= b) && (s.end <= a ==> s.end <= b)
  {
    if segments == [] then floor
    else
      var s := segments[0];
      var b1 := if floor < s.start <= a then s.start else floor;
      var b2 := if b1 < s.end <= a then s.end else b1;
      var b := LastEdge(segments[1..], a, b2);
      assert segments == [s] + segments[1..];
      assert b2 == floor || (s in segments && (b2 == s.start || b2 == s.end));
      b
  }

  lemma {:induction false} SameHolders(sorted: seq<Segment>, a: int, b: int)
    requires forall s :: s in sorted ==> (Contains(s, a) <==> Contains(s, b))
    ensures FirstReadable(sorted, a) == FirstReadable(sorted, b)
  {
    if sorted != [] {
      assert sorted[0] in sorted;
      SameHolders(sorted[1..], a, b);
    }
  }

  /** Clear at the edges is clear everywhere: between edges the holders do not change. */
  lemma ClearEverywhere(segments: seq<Segment>, a: int)
    requires Unshadowed(segments)
    ensures ClearAt(segments, a)
  {
    hide Sorted, FirstReadable;
    if a < LIMIT && Readable(segments, a) {
      var t :| t in segments && t.readable && Contains(t, a);
      var b := LastEdge(segments, a, t.start);
      SortedMeans(segments);
      SameMembers(Sorted(segments), segments);
      SameHolders(Sorted(segments), a, b);
      assert Contains(t, b);
      assert ClearAt(segments, b);
    }
  }

  /** Every non-empty range below 4 GiB of readable bytes is allowed, and nothing else is. */
  ghost predicate ReadableIsEnough(segments: seq<Segment>)
  {
    forall address, length :: AllowsRead(segments, address, length) <==>
      length > 0 && address + length <= LIMIT && AllReadable(segments, address, address + length)
  }

  /** Main result: the map allows exactly the readable ranges if and only if it is unshadowed at its edges. */
  lemma ReadableIsEnoughIff(segments: seq<Segment>)
    ensures ReadableIsEnough(segments) <==> Unshadowed(segments)
  {
    hide Sorted, FirstReadable, Readable, Unshadowed;
    if Unshadowed(segments) {
      forall address, length
        ensures AllowsRead(segments, address, length) <==>
          length > 0 && address + length <= LIMIT && AllReadable(segments, address, address + length)
      {
        AllowsReadIff(segments, address, length);
        if length > 0 && address + length <= LIMIT && AllReadable(segments, address, address + length) {
          forall a | address <= a < address + length ensures FirstReadable(Sorted(segments), a) {
            ClearEverywhere(segments, a);
          }
        }
      }
    }
    if ReadableIsEnough(segments) {
      AllClear(segments);
    }
  }

  lemma AllClear(segments: seq<Segment>)
    requires ReadableIsEnough(segments)
    ensures Unshadowed(segments)
  {
    hide Sorted, FirstReadable, Readable, AllowsRead;
    forall a ensures ClearAt(segments, a) {
      if a < LIMIT && Readable(segments, a) {
        AllowsReadIff(segments, a, 1);
        assert AllReadable(segments, a, a + 1);
        assert AllowsRead(segments, a, 1);
      }
    }
  }

  /** Maps whose segments share no byte are unshadowed. */
  lemma DisjointIsUnshadowed(segments: seq<Segment>)
    requires Disjoint(segments)
    ensures Unshadowed(segments)
  {
    hide Sorted;
    SortedMeans(segments);
    SameMembers(Sorted(segments), segments);
    forall a ensures ClearAt(segments, a) {
      if Readable(segments, a) {
        var t :| t in segments && t.readable && Contains(t, a);
        HolderIsFirst(Sorted(segments), t, a);
      }
    }
  }

  lemma {:induction false} HolderIsFirst(sorted: seq<Segment>, t: Segment, a: int)
    requires t in sorted && t.readable && Contains(t, a)
    requires forall s :: s in sorted && Contains(s, a) ==> s == t
    ensures FirstReadable(sorted, a)
  {
    assert sorted[0] in sorted;
    if !Contains(sorted[0], a) {
      assert sorted == [sorted[0]] + sorted[1..];
      HolderIsFirst(sorted[1..], t, a);
    }
  }

  /** A map that is shadowed: its readable byte 0 is refused, because the unreadable holder comes first. */
  lemma OverlapCanRefuse()
    ensures var overlapping := [Segment(0, 2, false), Segment(0, 2, true)];
      AllReadable(overlapping, 0, 1) && !AllowsRead(overlapping, 0, 1) && !Unshadowed(overlapping)
  {
    var overlapping := [Segment(0, 2, false), Segment(0, 2, true)];
    assert overlapping[1] in overlapping;
    assert overlapping[1..] == [overlapping[1]] && overlapping[1..][1..] == [];
    assert Sorted(overlapping[1..][1..]) == [];
    assert Sorted(overlapping[1..]) == [overlapping[1]] + [];
    assert Sorted(overlapping) == [overlapping[0]] + [overlapping[1]];
    assert forall a :: 0 <= a < 1 ==> Contains(overlapping[1], a);
    assert Contains(overlapping[0], 0) && overlapping[0] in overlapping;
    assert Readable(overlapping, 0) && !FirstReadable(Sorted(overlapping), 0);
    assert !ClearAt(overlapping, overlapping[0].start);
  }

  /** Overlap alone does no harm. */
  lemma OverlapCanBeExact()
    ensures var overlapping := [Segment(0, 4, true), Segment(2, 6, true)];
      !Disjoint(overlapping) && ReadableIsEnough(overlapping)
  {
    hide Sorted, FirstReadable, ReadableIsEnough;
    var overlapping := [Segment(0, 4, true), Segment(2, 6, true)];
    assert overlapping[0] in overlapping && overlapping[1] in overlapping;
    forall a ensures ClearAt(overlapping, a) {
      if Readable(overlapping, a) {
        SortedMeans(overlapping);
        SameMembers(Sorted(overlapping), overlapping);
        assert forall s :: s in Sorted(overlapping) ==> s.readable;
        AllReadableHolders(Sorted(overlapping), a);
      }
    }
    ReadableIsEnoughIff(overlapping);
  }

  lemma {:induction false} AllReadableHolders(sorted: seq<Segment>, a: int)
    requires (forall s :: s in sorted ==> s.readable) && Readable(sorted, a)
    ensures FirstReadable(sorted, a)
  {
    var t :| t in sorted && t.readable && Contains(t, a);
    assert sorted[0] in sorted;
    if !Contains(sorted[0], a) {
      assert sorted == [sorted[0]] + sorted[1..];
      AllReadableHolders(sorted[1..], a);
    }
  }

  /** The loop of `memoryMapAllowsRead` over the sorted copy. */
  method MemoryMapAllowsRead(segments: seq<Segment>, address: int, length: int) returns (allowed: bool)
    ensures allowed == AllowsRead(segments, address, length)
  {
    hide Sorted;
    if length <= 0 {
      return false;
    }
    var end := address + length;
    if end > LIMIT {
      return false;
    }
    var cursor := address;
    var sorted := Sorted(segments);
    assert sorted[0..] == sorted;
    for k := 0 to |sorted|
      invariant Walk(sorted[k..], cursor, end) == Walk(sorted, address, end)
    {
      var segment := sorted[k];
      assert sorted[k..][1..] == sorted[k + 1..];
      if !(segment.end <= cursor || segment.start > cursor) {
        if !segment.readable {
          return false;
        }
        cursor := Min(end, segment.end);
        if cursor == end {
          return true;
        }
      }
    }
    return false;
  }
}
