/** Layers made of a sorted list of segments: finding the segment of an address by
    bisection, and mapping a request onto the segments. */
module Segmented {
  import opened Bits
  import opened Memory
  import opened Pieces

  datatype Segment = Segment(start: nat, mapped: nat, length: nat, mappedLength: nat) {
    predicate Contains(a: int) {
      start <= a < start + length
    }

    function End(): nat {
      start + length
    }
  }

  /** Segments in address order that share no address. A base layer ends at `max`. Segments
      that start together come in order of their mapped offset, and empty ones lie below `max`. */
  ghost predicate Sorted(segs: seq<Segment>, max: int) {
    && (forall i, j :: 0 <= i < j < |segs| ==> segs[i].End() <= segs[j].start && Before(segs[i], segs[j]))
    && (forall i :: 0 <= i < |segs| && segs[i].length == 0 ==> segs[i].mapped < max)
  }

  predicate Before(s: Segment, t: Segment) {
    s.start < t.start || (s.start == t.start && s.mapped <= t.mapped)
  }

  /** `(offset, max) < segment` in the order of tuples. */
  predicate KeyBelow(offset: nat, max: int, s: Segment) {
    offset < s.start || (offset == s.start && max <= s.mapped)
  }

  /** `bisect_right(segments, (offset, max))`. */
  method BisectRight(segs: seq<Segment>, offset: nat, max: int) returns (i: nat)
    requires Sorted(segs, max)
    ensures i <= |segs|
    ensures forall j :: 0 <= j < i ==> !KeyBelow(offset, max, segs[j])
    ensures forall j :: i <= j < |segs| ==> KeyBelow(offset, max, segs[j])
  {
    var lo, hi := 0, |segs|;
    while lo < hi
      invariant 0 <= lo <= hi <= |segs|
      invariant forall j :: 0 <= j < lo ==> !KeyBelow(offset, max, segs[j])
      invariant forall j :: hi <= j < |segs| ==> KeyBelow(offset, max, segs[j])
    {
      var mid := (lo + hi) / 2;
      if KeyBelow(offset, max, segs[mid]) {
        forall j | mid <= j < |segs| ensures KeyBelow(offset, max, segs[j]) {
          if mid < j { assert Before(segs[mid], segs[j]); }
        }
        hi := mid;
      } else {
        forall j | 0 <= j <= mid ensures !KeyBelow(offset, max, segs[j]) {
          if j < mid { assert Before(segs[j], segs[mid]); }
        }
        lo := mid + 1;
      }
    }
    return lo;
  }

  /** The segment that contains `a`, by looking at each in turn. */
  function SegmentAt(segs: seq<Segment>, a: nat): (s: Option<Segment>)
    ensures s.Some? ==> s.value in segs && s.value.Contains(a)
  {
    if segs == [] then None
    else if segs[0].Contains(a) then Some(segs[0])
    else SegmentAt(segs[1..], a)
  }

  /** Whether the lookup for `a` finds its segment: the one lookup that misses is for the
      first address of a segment mapped at or beyond the end of the base layer. */
  predicate Findable(segs: seq<Segment>, max: int, a: nat) {
    SegmentAt(segs, a).Some? && !(SegmentAt(segs, a).value.start == a && max <= SegmentAt(segs, a).value.mapped)
  }

  /** A segment mapped at the last byte of its base layer: the lookup misses its first
      address and finds the next. */
  lemma {:induction false} SegmentStartIsMissed()
    ensures var segs, max := [Segment(0x1000, 15, 2, 2)], 15;
            && Sorted(segs, max) && SegmentAt(segs, 0x1000).Some?
            && !Findable(segs, max, 0x1000) && Findable(segs, max, 0x1001)
  {
    var segs := [Segment(0x1000, 15, 2, 2)];
    SegmentAtIndex(segs, 15, 0, 0x1000);
    SegmentAtIndex(segs, 15, 0, 0x1001);
  }

  lemma {:induction false} SegmentAtIndex(segs: seq<Segment>, max: int, i: nat, a: nat)
    requires Sorted(segs, max) && i < |segs| && segs[i].Contains(a)
    ensures SegmentAt(segs, a) == Some(segs[i])
  {
    if i > 0 {
      assert segs[0].End() <= segs[i].start;
      SegmentAtIndex(segs[1..], max, i - 1, a);
    }
  }

  lemma {:induction false} SegmentAtSome(segs: seq<Segment>, a: nat) returns (i: nat)
    requires SegmentAt(segs, a).Some?
    ensures i < |segs| && segs[i].Contains(a) && SegmentAt(segs, a) == Some(segs[i])
  {
    if segs[0].Contains(a) {
      i := 0;
    } else {
      i := SegmentAtSome(segs[1..], a);
      i := i + 1;
    }
  }

  lemma {:induction false} SegmentAtNone(segs: seq<Segment>, a: nat)
    requires forall i :: 0 <= i < |segs| ==> !segs[i].Contains(a)
    ensures SegmentAt(segs, a) == None
  {
    if segs != [] {
      assert forall i :: 0 <= i < |segs[1..]| ==> segs[1..][i] == segs[i + 1];
      SegmentAtNone(segs[1..], a);
    }
  }

  /** `_find_segment`: by bisection, and yet the segment a linear search finds. */
  method FindSegment(segs: seq<Segment>, max: int, offset: nat) returns (s: Option<Segment>)
    requires Sorted(segs, max)
    ensures s == if Findable(segs, max, offset) then SegmentAt(segs, offset) else None
  {
    var i := BisectRight(segs, offset, max);
    if i > 0 && segs[i - 1].Contains(offset) {
      SegmentAtIndex(segs, max, i - 1, offset);
      return Some(segs[i - 1]);
    }
    forall j | 0 <= j < |segs| && segs[j].Contains(offset)
      ensures segs[j].start == offset && max <= segs[j].mapped
      ensures SegmentAt(segs, offset) == Some(segs[j])
    {
      SegmentAtIndex(segs, max, j, offset);
    }
    if SegmentAt(segs, offset).Some? {
      var j := SegmentAtSome(segs, offset);
    }
    return None;
  }

  /** `_find_segment(next=True)`: the first segment after the key, if there is one. */
  method FindNext(segs: seq<Segment>, max: int, offset: nat) returns (s: Option<Segment>, ghost i: nat)
    requires Sorted(segs, max)
    ensures s.None? <==> forall t :: t in segs ==> !KeyBelow(offset, max, t)
    ensures s.Some? ==> s.value in segs && KeyBelow(offset, max, s.value)
    ensures s.Some? ==> forall t :: t in segs && KeyBelow(offset, max, t) ==> t == s.value || Before(s.value, t)
    ensures i <= |segs| && (s.Some? <==> i < |segs|) && (s.Some? ==> s.value == segs[i])
    ensures forall j :: 0 <= j < i ==> !KeyBelow(offset, max, segs[j])
    ensures forall j :: i <= j < |segs| ==> KeyBelow(offset, max, segs[j])
  {
    var k := BisectRight(segs, offset, max);
    i := k;
    if k < |segs| {
      return Some(segs[k]), k;
    }
    return None, k;
  }

  // ---- mapping a request ----

  /** `p` is a part of segment `s`. When offsets are tracked its mapped offset moves along
      with it; otherwise it always names the start of the encoded segment. */
  predicate CutFrom(p: Piece, s: Segment, track: bool) {
    && s.start <= p.offset && p.End() <= s.End() && (s.length > 0 ==> s.Contains(p.offset))
    && p.mappedOffset == s.mapped + (if track then p.offset - s.start else 0)
    && p.mappedLength == s.mappedLength
  }

  ghost predicate AllCut(ps: seq<Piece>, segs: seq<Segment>, layer: string, track: bool) {
    forall i :: 0 <= i < |ps| ==> ps[i].layer == layer && exists s :: s in segs && CutFrom(ps[i], s, track)
  }

  /** Each piece is all of a segment that lies in the request `[lo, hi)`. */
  ghost predicate AllFull(ps: seq<Piece>, segs: seq<Segment>, lo: nat, hi: nat) {
    forall i :: 0 <= i < |ps| ==> exists s :: s in segs && IsFull(ps[i], s, lo, hi)
  }

  predicate IsFull(p: Piece, s: Segment, lo: nat, hi: nat) {
    p.offset == Max(s.start, lo) && p.End() == Min(s.End(), hi)
  }

  predicate EndsSegment(segs: seq<Segment>, a: nat) {
    exists i :: 0 <= i < |segs| && segs[i].End() == a
  }

  /** A request goes on where it starts or where a segment ends, so it cuts no segment in two. */
  lemma {:induction false} FullStep(segs: seq<Segment>, max: int, p: Piece, i: nat, lo: nat, current: nat, hi: nat)
    requires Sorted(segs, max) && i < |segs| && IsFull(p, segs[i], current, hi) && lo <= current <= p.offset
    requires current == lo || EndsSegment(segs, current)
    requires segs[i].length > 0 ==> segs[i].Contains(p.offset)
    requires p.offset == current ==> segs[i].Contains(current)
    ensures IsFull(p, segs[i], lo, hi) && (p.End() == hi || EndsSegment(segs, p.End()))
  {
    if current > lo && p.offset == current { StartsThere(segs, max, i, current); }
  }

  /** The segment that contains the end of another one starts there. */
  lemma {:induction false} StartsThere(segs: seq<Segment>, max: int, i: nat, a: nat)
    requires Sorted(segs, max) && i < |segs| && segs[i].Contains(a) && EndsSegment(segs, a)
    ensures segs[i].start == a
  {
    var j :| 0 <= j < |segs| && segs[j].End() == a;
    assert j < i ==> segs[j].End() <= segs[i].start;
  }

  /** The parts so far, all whole, cut from segments. */
  ghost predicate Parts(ps: seq<Piece>, segs: seq<Segment>, layer: string, track: bool, lo: nat, hi: nat) {
    AllCut(ps, segs, layer, track) && AllFull(ps, segs, lo, hi)
  }

  lemma {:induction false} PartsStep(ps: seq<Piece>, segs: seq<Segment>, layer: string, track: bool, lo: nat, hi: nat,
                                     p: Piece, s: Segment)
    requires Parts(ps, segs, layer, track, lo, hi) && s in segs && CutFrom(p, s, track) && p.layer == layer
    requires IsFull(p, s, lo, hi)
    ensures Parts(ps + [p], segs, layer, track, lo, hi)
  {
  }

  /** The pieces cover the same addresses of `[lo, hi)` as the segments. */
  ghost predicate SameCover(ps: seq<Piece>, segs: seq<Segment>, lo: nat, hi: nat) {
    forall a: nat :: lo <= a < hi ==> (Lookup(ps, a).Some? <==> SegmentAt(segs, a).Some?)
  }

  /** Every address a request needs is found; an empty request needs the one it names. */
  ghost predicate AllFindable(segs: seq<Segment>, max: int, offset: nat, length: nat) {
    (length == 0 ==> Findable(segs, max, offset)) && FoundUpTo(segs, max, offset, offset + length)
  }

  /** `stop` is the first address a request needs that is not found. */
  ghost predicate FirstMissing(segs: seq<Segment>, max: int, offset: nat, length: nat, stop: nat) {
    && offset <= stop <= offset + length && (stop == offset + length ==> length == 0)
    && !Findable(segs, max, stop) && FoundUpTo(segs, max, offset, stop)
  }

  /** What an empty request gives: one empty piece, where the address goes, if a segment contains it. */
  function ProbeOf(segs: seq<Segment>, offset: nat, layer: string, track: bool): seq<Piece> {
    var s := SegmentAt(segs, offset);
    if s.None? then []
    else
      [Piece(offset, 0, s.value.mapped + (if track then offset - s.value.start else 0), s.value.mappedLength, layer)]
  }

  lemma {:induction false} ProbeIs(segs: seq<Segment>, max: int, p: Piece, i: nat, layer: string, track: bool)
    requires Sorted(segs, max) && i < |segs| && segs[i].Contains(p.offset) && CutFrom(p, segs[i], track)
    requires p.length == 0 && p.layer == layer
    ensures [] + [p] == ProbeOf(segs, p.offset, layer, track)
  {
    SegmentAtIndex(segs, max, i, p.offset);
  }

  lemma {:induction false} SnocPiece(ps: seq<Piece>, p: Piece, lo: nat)
    requires Ascending(ps) && Within(ps, lo, p.offset) && lo <= p.offset
    ensures Ascending(ps + [p]) && Within(ps + [p], lo, p.End())
    ensures forall a :: Lookup(ps + [p], a).Some? <==> Lookup(ps, a).Some? || p.Contains(a)
  {
    forall a ensures Lookup(ps + [p], a).Some? <==> Lookup(ps, a).Some? || p.Contains(a) {
      LookupConcat(ps, [p], a);
      assert [p][1..] == [];
    }
  }

  /** Appending the next part of a segment keeps the cover, up to the end of that part. */
  lemma {:induction false} CoverStep(ps: seq<Piece>, segs: seq<Segment>, max: int, lo: nat, current: nat, p: Piece,
                                     s: Segment, i: nat)
    requires Sorted(segs, max) && i < |segs| && s == segs[i]
    requires lo <= current <= p.offset && s.start <= p.offset && p.End() <= s.End()
    requires Ascending(ps) && Within(ps, lo, current) && SameCover(ps, segs, lo, current)
    requires forall a: nat :: current <= a < p.offset ==> SegmentAt(segs, a) == None
    ensures Ascending(ps + [p]) && Within(ps + [p], lo, p.End()) && SameCover(ps + [p], segs, lo, p.End())
  {
    SnocPiece(ps, p, lo);
    forall a: nat | lo <= a < p.End() ensures Lookup(ps + [p], a).Some? <==> SegmentAt(segs, a).Some? {
      if a >= p.offset {
        SegmentAtIndex(segs, max, i, a);
      } else if a >= current {
        LookupNone(ps, a);
      }
    }
  }

  /** When the lookup for `current` fails, no segment covers an address before the next one. */
  lemma {:induction false} NothingBeforeNext(segs: seq<Segment>, max: int, current: nat, i: nat, a: nat)
    requires Sorted(segs, max) && i <= |segs| && !Findable(segs, max, current)
    requires forall j :: 0 <= j < i ==> !KeyBelow(current, max, segs[j])
    requires current <= a && (i < |segs| ==> a < segs[i].start)
    ensures SegmentAt(segs, a) == None
  {
    forall j | 0 <= j < |segs| ensures !segs[j].Contains(a) {
      if j < i && segs[j].Contains(a) {
        SegmentAtIndex(segs, max, j, current);
      } else if i < j {
        assert segs[i].End() <= segs[j].start;
      }
    }
    SegmentAtNone(segs, a);
  }

  lemma {:induction false} PartFindable(segs: seq<Segment>, max: int, i: nat, current: nat, a: nat)
    requires Sorted(segs, max) && i < |segs| && Findable(segs, max, current)
    requires segs[i].Contains(current) && current <= a < segs[i].End()
    ensures Findable(segs, max, a)
  {
    SegmentAtIndex(segs, max, i, current);
    SegmentAtIndex(segs, max, i, a);
  }

  /** One turn of the loop of `mapping`: the next piece at or after `current`, nothing if
      no segment is left before `end`, or the exception if errors count. */
  method NextPiece(segs: seq<Segment>, max: int, layer: string, current: nat, end: nat, ignoreErrors: bool, track: bool)
    returns (p: Option<Piece>, fault: Option<Error>, ghost i: nat)
    requires Sorted(segs, max) && current <= end
    ensures fault == if !ignoreErrors && !Findable(segs, max, current) then Some(InvalidAddress(current)) else None
    ensures fault.Some? ==> p.None?
    ensures p.Some? ==>
              && current <= p.value.offset && p.value.End() <= end && (p.value.End() < end ==> current < p.value.End())
              && i < |segs| && CutFrom(p.value, segs[i], track) && p.value.layer == layer
              && IsFull(p.value, segs[i], current, end)
              && (Findable(segs, max, current) ==> p.value.offset == current && segs[i].Contains(current))
              && (p.value.offset == current ==> segs[i].Contains(current))
              && (forall a: nat :: current <= a < p.value.offset ==> SegmentAt(segs, a) == None)
    ensures p.None? && fault.None? ==> forall a: nat :: current <= a <= end ==> SegmentAt(segs, a) == None
  {
    p, fault, i := None, None, 0;
    var logical, mapped, size, mappedSize := current, 0, 0, 0;
    var found := FindSegment(segs, max, current);
    if found.Some? {
      i := SegmentAtSome(segs, current);
      var s := found.value;
      var difference := current - s.start;
      mapped := if track then s.mapped + difference else s.mapped;
      size, mappedSize := s.length - difference, s.mappedLength;
    } else {
      if !ignoreErrors {
        return None, Some(InvalidAddress(current)), i;
      }
      var next, k := FindNext(segs, max, current);
      i := k;
      forall a: nat | current <= a && (i < |segs| ==> a < segs[i].start) ensures SegmentAt(segs, a) == None {
        NothingBeforeNext(segs, max, current, i, a);
      }
      if next.None? || next.value.start > end {
        return None, None, i;
      }
      logical, mapped, size, mappedSize := next.value.start, next.value.mapped, next.value.length,
          next.value.mappedLength;
    }
    p := Some(Piece(logical, Min(size, end - logical), mapped, mappedSize, layer));
  }

  /** `mapping` of the segmented layers. With errors ignored the pieces cover what the
      segments cover; without, it fails exactly when some needed address is not found. */
  method Map(segs: seq<Segment>, max: int, layer: string, offset: nat, length: nat, ignoreErrors: bool, track: bool)
    returns (m: Mapping)
    requires Sorted(segs, max)
    ensures Ascending(m.pieces) && Within(m.pieces, offset, offset + length) && AllCut(m.pieces, segs, layer, track)
    ensures AllFull(m.pieces, segs, offset, offset + length)
    ensures m.fault == None ==> SameCover(m.pieces, segs, offset, offset + length)
    ensures m.fault == None <==> ignoreErrors || AllFindable(segs, max, offset, length)
    ensures m.fault.Some? ==>
              exists stop: nat :: m.fault == Some(InvalidAddress(stop)) && FirstMissing(segs, max, offset, length, stop)
                             && Within(m.pieces, offset, stop) && SameCover(m.pieces, segs, offset, stop)
    ensures length == 0 ==> m.pieces == if m.fault == None then ProbeOf(segs, offset, layer, track) else []
  {
    var done, current := false, offset;
    var pieces: seq<Piece> := [];
    var end := offset + length;
    while !done
      invariant offset <= current <= end && (done ==> current == end) && (!done && length > 0 ==> current < end)
      invariant Ascending(pieces) && Within(pieces, offset, current) && SameCover(pieces, segs, offset, current)
      invariant Parts(pieces, segs, layer, track, offset, end)
      invariant done || current == offset || EndsSegment(segs, current)
      invariant ignoreErrors || FoundUpTo(segs, max, offset, current)
      invariant ignoreErrors || (done && length == 0 ==> Findable(segs, max, offset))
      invariant length == 0 ==> pieces == if done then ProbeOf(segs, offset, layer, track) else []
      decreases if done then 0 else 1 + end - current
    {
      var p, fault, i := NextPiece(segs, max, layer, current, end, ignoreErrors, track);
      if fault.Some? {
        assert FirstMissing(segs, max, offset, length, current);
        return Mapping(pieces, fault);
      } else if p.None? {
        FinishCover(pieces, segs, offset, current, end);
        return Mapping(pieces, None);
      }
      CoverStep(pieces, segs, max, offset, current, p.value, segs[i], i);
      if !ignoreErrors {
        FoundStep(segs, max, offset, current, p.value.End(), i);
      }
      FullStep(segs, max, p.value, i, offset, current, end);
      PartsStep(pieces, segs, layer, track, offset, end, p.value, segs[i]);
      if length == 0 { ProbeIs(segs, max, p.value, i, layer, track); }
      pieces := pieces + [p.value];
      current := p.value.End();
      if current >= end {
        done := true;
      }
    }
    return Mapping(pieces, None);
  }

  ghost predicate FoundUpTo(segs: seq<Segment>, max: int, lo: nat, hi: nat) {
    forall a: nat :: lo <= a < hi ==> Findable(segs, max, a)
  }

  lemma {:induction false} FoundStep(segs: seq<Segment>, max: int, lo: nat, current: nat, hi: nat, i: nat)
    requires Sorted(segs, max) && FoundUpTo(segs, max, lo, current) && Findable(segs, max, current)
    requires i < |segs| && segs[i].Contains(current) && hi <= segs[i].End()
    ensures FoundUpTo(segs, max, lo, hi)
  {
    forall a: nat | current <= a < hi ensures Findable(segs, max, a) {
      PartFindable(segs, max, i, current, a);
    }
  }

  lemma {:induction false} FinishCover(ps: seq<Piece>, segs: seq<Segment>, lo: nat, current: nat, hi: nat)
    requires lo <= current <= hi && Within(ps, lo, current) && SameCover(ps, segs, lo, current)
    requires forall a: nat :: current <= a < hi ==> SegmentAt(segs, a) == None
    ensures SameCover(ps, segs, lo, hi)
  {
    forall a: nat | current <= a < hi ensures Lookup(ps, a) == None {
      LookupNone(ps, a);
    }
  }
}
