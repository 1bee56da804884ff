/** The linearly mapped segmented layer over a buffer: `mapping`, `read` and `write`,
    in terms of what each address of the layer stands for. */
module SegmentedLayers {
  import opened Bits
  import LinearLayer
  import opened Memory
  import opened Pieces
  import opened Segmented

  /** The byte below that address `a` stands for. */
  function Target(segs: seq<Segment>, a: nat): Option<nat> {
    var s := SegmentAt(segs, a);
    if s.Some? then Some(s.value.mapped + (a - s.value.start)) else None
  }

  /** The byte the layer shows at `a`. */
  function ByteOf(segs: seq<Segment>, mem: seq<byte>, a: nat): byte {
    var t := Target(segs, a);
    if t.Some? && t.value < |mem| then mem[t.value] else 0
  }

  /** Every covered address of the request has its byte in the buffer. */
  ghost predicate TargetsReadable(segs: seq<Segment>, size: nat, offset: nat, length: nat) {
    forall a: nat :: offset <= a < offset + length && Target(segs, a).Some? ==> Target(segs, a).value < size
  }

  /** The file ranges of the segments do not overlap and lie in the buffer. */
  ghost predicate DisjointInFile(segs: seq<Segment>, size: nat) {
    && (forall i :: 0 <= i < |segs| ==> segs[i].mapped + segs[i].length <= size)
    && (forall i, j :: 0 <= i < j < |segs| ==>
          || segs[i].mapped + segs[i].length <= segs[j].mapped
          || segs[j].mapped + segs[j].length <= segs[i].mapped)
  }

  /** `SegmentedLayer.mapping`: the mapped length of a piece is its length. */
  function Linearised(ps: seq<Piece>): (r: seq<Piece>)
    ensures |r| == |ps| && forall i :: 0 <= i < |ps| ==> r[i] == ps[i].(mappedLength := ps[i].length)
  {
    seq(|ps|, i requires 0 <= i < |ps| => ps[i].(mappedLength := ps[i].length))
  }

  lemma {:induction false} LinearisedLookup(ps: seq<Piece>, a: int)
    ensures Lookup(Linearised(ps), a) == Lookup(ps, a)
    decreases |ps|
  {
    if ps != [] {
      assert Linearised(ps)[1..] == Linearised(ps[1..]);
      LinearisedLookup(ps[1..], a);
    }
  }

  /** A piece cut from a segment sends an address where the segment does. */
  lemma {:induction false} CutTarget(segs: seq<Segment>, max: int, p: Piece, a: nat)
    requires Sorted(segs, max) && p.Contains(a)
    requires exists s :: s in segs && CutFrom(p, s, true)
    ensures Target(segs, a) == Some(p.mappedOffset + (a - p.offset))
  {
    var s :| s in segs && CutFrom(p, s, true);
    var i :| 0 <= i < |segs| && segs[i] == s;
    SegmentAtIndex(segs, max, i, a);
  }

  /** Where the pieces of a mapping send an address, the segments send it. */
  lemma {:induction false} PiecesTarget(segs: seq<Segment>, max: int, ps: seq<Piece>, layer: string, a: nat)
    requires Sorted(segs, max) && AllCut(ps, segs, layer, true) && Lookup(ps, a).Some?
    ensures Target(segs, a) == Some(Lookup(ps, a).value.address)
  {
    var i := LookupSome(ps, a);
    var p := ps[i];
    assert p.Contains(a) && exists s :: s in segs && CutFrom(p, s, true);
    CutTarget(segs, max, p, a);
  }

  lemma {:induction false} ReadableIffTargets(segs: seq<Segment>, max: int, ps: seq<Piece>, layer: string,
                                              mem: seq<byte>, offset: nat, length: nat)
    requires Sorted(segs, max) && AllCut(ps, segs, layer, true)
    requires Ascending(ps) && Within(ps, offset, offset + length) && SameCover(ps, segs, offset, offset + length)
    ensures LinearLayer.AllReadable(Linearised(ps), mem) <==> TargetsReadable(segs, |mem|, offset, length)
  {
    var ls := Linearised(ps);
    if LinearLayer.AllReadable(ls, mem) {
      forall a: nat | offset <= a < offset + length && Target(segs, a).Some? ensures Target(segs, a).value < |mem| {
        var i := LookupSome(ps, a);
        PiecesTarget(segs, max, ps, layer, a);
        assert Readable(mem, ls[i].mappedOffset, ls[i].mappedLength);
      }
    }
    if TargetsReadable(segs, |mem|, offset, length) {
      forall i | 0 <= i < |ls| && ls[i].mappedLength > 0
        ensures Readable(mem, ls[i].mappedOffset, ls[i].mappedLength)
      {
        CutTarget(segs, max, ps[i], ps[i].End() - 1);
        assert Target(segs, ps[i].End() - 1).Some?;
      }
    }
  }

  /** `x` is the target of an address of the range. */
  ghost predicate IsTarget(segs: seq<Segment>, offset: nat, length: nat, x: int) {
    exists a: nat :: offset <= a < offset + length && Target(segs, a) == Some(x)
  }

  /** Segments that share no byte of the file send no two addresses to one byte. */
  lemma {:induction false} TargetInjective(segs: seq<Segment>, size: nat, a: nat, b: nat)
    requires DisjointInFile(segs, size) && Target(segs, a).Some? && Target(segs, a) == Target(segs, b)
    ensures a == b
  {
    var i := SegmentAtSome(segs, a);
    var j := SegmentAtSome(segs, b);
  }

  /** What changes only at the targets of a range changes no byte the layer shows elsewhere. */
  lemma {:induction false} OtherBytesStay(segs: seq<Segment>, mem: seq<byte>, mem': seq<byte>, offset: nat, length: nat)
    requires DisjointInFile(segs, |mem|) && |mem'| == |mem|
    requires forall x :: 0 <= x < |mem| && !IsTarget(segs, offset, length, x) ==> mem'[x] == mem[x]
    ensures forall b: nat :: !(offset <= b < offset + length) ==> ByteOf(segs, mem', b) == ByteOf(segs, mem, b)
  {
    forall b: nat | !(offset <= b < offset + length) ensures ByteOf(segs, mem', b) == ByteOf(segs, mem, b) {
      var t := Target(segs, b);
      if t.Some? && IsTarget(segs, offset, length, t.value) {
        var a: nat :| offset <= a < offset + length && Target(segs, a) == t;
        TargetInjective(segs, |mem|, a, b);
        assert false;
      }
    }
  }

  lemma {:induction false} PartInFile(segs: seq<Segment>, size: nat, p: Piece)
    requires DisjointInFile(segs, size)
    requires exists s :: s in segs && CutFrom(p, s, true)
    ensures p.mappedOffset + p.length <= size
  {
    var s :| s in segs && CutFrom(p, s, true);
  }

  lemma {:induction false} PartsDisjoint(segs: seq<Segment>, size: nat, p: Piece, q: Piece)
    requires DisjointInFile(segs, size) && p.End() <= q.offset
    requires exists s :: s in segs && CutFrom(p, s, true)
    requires exists s :: s in segs && CutFrom(q, s, true)
    ensures p.mappedOffset + p.length <= q.mappedOffset || q.mappedOffset + q.length <= p.mappedOffset
  {
    var s :| s in segs && CutFrom(p, s, true);
    var t :| t in segs && CutFrom(q, t, true);
    var i :| 0 <= i < |segs| && segs[i] == s;
    var j :| 0 <= j < |segs| && segs[j] == t;
    if i < j { assert s.mapped + s.length <= t.mapped || t.mapped + t.length <= s.mapped; }
  }

  /** The parts of a request inherit the file layout of the segments. */
  lemma {:induction false} PiecesInFile(segs: seq<Segment>, ps: seq<Piece>, layer: string, size: nat)
    requires Ascending(ps) && AllCut(ps, segs, layer, true) && DisjointInFile(segs, size)
    ensures PiecesInBounds(Linearised(ps), size) && LinearLayer.DisjointBelow(Linearised(ps))
  {
    forall i | 0 <= i < |ps| ensures ps[i].mappedOffset + ps[i].length <= size {
      PartInFile(segs, size, ps[i]);
    }
    forall i, j | 0 <= i < j < |ps|
      ensures || ps[i].mappedOffset + ps[i].length <= ps[j].mappedOffset
              || ps[j].mappedOffset + ps[j].length <= ps[i].mappedOffset
    {
      PartsDisjoint(segs, size, ps[i], ps[j]);
    }
  }

  /** A write through a request's pieces changes only targets of the request. */
  lemma {:induction false} WriteFrame(segs: seq<Segment>, max: int, ps: seq<Piece>, layer: string, n: nat,
                                      mem: seq<byte>, offset: nat, value: seq<byte>)
    requires Sorted(segs, max) && AllCut(ps, segs, layer, true) && DisjointInFile(segs, |mem|)
    requires Ascending(ps) && Within(ps, offset, offset + |value|) && n <= |ps|
    ensures var mem' := LinearLayer.Stored(mem, Linearised(ps), n, offset, value);
            |mem'| == |mem| && forall x :: 0 <= x < |mem| && !IsTarget(segs, offset, |value|, x) ==> mem'[x] == mem[x]
  {
    var ls := Linearised(ps);
    PiecesInFile(segs, ps, layer, |mem|);
    LinearLayer.StoredFrame(mem, ls, n, offset, value);
    forall x | 0 <= x < |mem| && !IsTarget(segs, offset, |value|, x)
      ensures forall i :: 0 <= i < n ==> !LinearLayer.NamedBelow(ls[i], x)
    {
      forall i | 0 <= i < n ensures !LinearLayer.NamedBelow(ls[i], x) {
        if LinearLayer.NamedBelow(ls[i], x) {
          NamedIsTarget(segs, max, ps[i], x);
        }
      }
    }
  }

  lemma {:induction false} NamedIsTarget(segs: seq<Segment>, max: int, p: Piece, x: nat)
    requires Sorted(segs, max) && LinearLayer.NamedBelow(p, x)
    requires exists s :: s in segs && CutFrom(p, s, true)
    ensures IsTarget(segs, p.offset, p.length, x)
  {
    var a: nat := p.offset + (x - p.mappedOffset);
    CutTarget(segs, max, p, a);
  }

  /** A write through pieces that cover the addresses before `stop` is what the layer shows
      there afterwards. */
  lemma {:induction false} WriteShown(segs: seq<Segment>, max: int, ps: seq<Piece>, layer: string,
                                      mem: seq<byte>, offset: nat, value: seq<byte>, stop: nat)
    requires Sorted(segs, max) && AllCut(ps, segs, layer, true) && DisjointInFile(segs, |mem|)
    requires Ascending(ps) && Within(ps, offset, stop) && stop <= offset + |value|
    requires forall a: nat :: offset <= a < stop ==> Lookup(ps, a).Some?
    ensures var mem' := LinearLayer.Stored(mem, Linearised(ps), |ps|, offset, value);
            forall a: nat :: offset <= a < stop ==> ByteOf(segs, mem', a) == value[a - offset]
  {
    var mem' := LinearLayer.Stored(mem, Linearised(ps), |ps|, offset, value);
    PiecesInFile(segs, ps, layer, |mem|);
    forall a: nat | offset <= a < stop ensures ByteOf(segs, mem', a) == value[a - offset] {
      WrittenIsShown(segs, max, ps, layer, mem, offset, value, a - offset, a);
    }
  }

  lemma {:induction false} WrittenIsShown(segs: seq<Segment>, max: int, ps: seq<Piece>, layer: string,
                                          mem: seq<byte>, offset: nat, value: seq<byte>, k: nat, a: nat)
    requires Sorted(segs, max) && AllCut(ps, segs, layer, true) && Within(ps, offset, offset + |value|)
    requires PiecesInBounds(Linearised(ps), |mem|) && LinearLayer.DisjointBelow(Linearised(ps))
    requires k < |value| && a == offset + k && Lookup(ps, a).Some?
    ensures ByteOf(segs, LinearLayer.Stored(mem, Linearised(ps), |ps|, offset, value), a) == value[k]
  {
    LinearisedLookup(ps, a);
    LinearLayer.WrittenByte(mem, Linearised(ps), offset, value, a, k);
    SameByte(segs, max, ps, layer, LinearLayer.Stored(mem, Linearised(ps), |ps|, offset, value), a);
  }

  /** The pieces show the byte the segments show. */
  lemma {:induction false} SameByte(segs: seq<Segment>, max: int, ps: seq<Piece>, layer: string, mem: seq<byte>, a: nat)
    requires Sorted(segs, max) && AllCut(ps, segs, layer, true) && Lookup(ps, a).Some?
    ensures LinearLayer.ByteAt(Linearised(ps), mem, a) == ByteOf(segs, mem, a)
  {
    LinearisedLookup(ps, a);
    PiecesTarget(segs, max, ps, layer, a);
  }

  class SegmentedLayer {
    const base: BufferDataLayer
    const baseName: string
    var segments: seq<Segment>

    constructor (base: BufferDataLayer, baseName: string, segments: seq<Segment>)
      requires Sorted(segments, base.MaximumAddress())
      ensures this.base == base && this.segments == segments && Valid()
    {
      this.base, this.baseName, this.segments := base, baseName, segments;
    }

    ghost predicate Valid()
      reads this, base
    {
      Sorted(segments, base.MaximumAddress())
    }

    /** `mapping`: the pieces send exactly the covered addresses to their targets. */
    method MapLinear(offset: nat, length: nat, ignoreErrors: bool) returns (m: Mapping)
      requires Valid()
      ensures Ascending(m.pieces) && Within(m.pieces, offset, offset + length) && Linear(m.pieces)
      ensures m.fault == None <==> ignoreErrors || AllFindable(segments, base.MaximumAddress(), offset, length)
      ensures m.fault == None ==> forall a: nat :: offset <= a < offset + length ==>
                Lookup(m.pieces, a) == if Target(segments, a).Some?
                    then Some(Place(baseName, Target(segments, a).value)) else None
      ensures m.fault == None ==>
                (LinearLayer.AllReadable(m.pieces, base.buffer)
                 <==> TargetsReadable(segments, |base.buffer|, offset, length))
      ensures m.fault.Some? ==>
                exists stop: nat :: m.fault == Some(InvalidAddress(stop))
                               && FirstMissing(segments, base.MaximumAddress(), offset, length, stop)
      ensures m.fault.Some? && TargetsReadable(segments, |base.buffer|, offset, length) ==>
                Contiguous(m.pieces, offset) && LinearLayer.AllReadable(m.pieces, base.buffer)
      ensures length == 0 ==>
                m.pieces == if m.fault == None && Target(segments, offset).Some?
                    then [Piece(offset, 0, Target(segments, offset).value, 0, baseName)] else []
    {
      var max := base.MaximumAddress();
      var raw := Map(segments, max, baseName, offset, length, ignoreErrors, true);
      m := Mapping(Linearised(raw.pieces), raw.fault);
      if raw.fault == None {
        forall a: nat | offset <= a < offset + length
          ensures Lookup(m.pieces, a) == if Target(segments, a).Some?
                    then Some(Place(baseName, Target(segments, a).value)) else None
        {
          LinearisedLookup(raw.pieces, a);
          if Lookup(raw.pieces, a).Some? {
            var i := LookupSome(raw.pieces, a);
            PiecesTarget(segments, max, raw.pieces, baseName, a);
          }
        }
        ReadableIffTargets(segments, max, raw.pieces, baseName, base.buffer, offset, length);
      } else {
        var stop := WriteReaches(segments, max, raw, offset, length);
        if TargetsReadable(segments, |base.buffer|, offset, length) {
          ReadableIffTargets(segments, max, raw.pieces, baseName, base.buffer, offset, stop - offset);
        }
      }
    }

    /** `translate`. With errors ignored it also finds the first address of a segment that the strict
        lookup misses. */
    method PlaceOf(offset: nat, ignoreErrors: bool) returns (r: Result<Option<Place>>)
      requires Valid()
      ensures var t := Target(segments, offset);
              r == if Findable(segments, base.MaximumAddress(), offset) || (ignoreErrors && t.Some?)
                   then Ok(Some(Place(baseName, t.value)))
                   else if ignoreErrors then Ok(None)
                   else Err(InvalidAddress(offset))
    {
      var m := MapLinear(offset, 0, ignoreErrors);
      r := LinearLayer.TranslateThrough(m, offset, ignoreErrors);
    }

    /** `read`: succeeds exactly when every needed address is found (unless padding) and
        every covered one lies in the buffer; then each byte is the target byte or zero. If only an
        address is missing, the exception names the first one. */
    method Read(offset: nat, length: nat, pad: bool) returns (r: Result<seq<byte>>)
      requires Valid()
      ensures r.Ok? <==>
                && (pad || AllFindable(segments, base.MaximumAddress(), offset, length))
                && TargetsReadable(segments, |base.buffer|, offset, length)
      ensures r.Ok? ==> |r.value| == length
      ensures r.Ok? ==> forall k :: 0 <= k < length ==> r.value[k] == ByteOf(segments, base.buffer, offset + k)
      ensures r.Err? && TargetsReadable(segments, |base.buffer|, offset, length) ==>
                exists stop: nat :: r.error == InvalidAddress(stop)
                               && FirstMissing(segments, base.MaximumAddress(), offset, length, stop)
    {
      var m := MapLinear(offset, length, pad);
      if m.fault == None && !pad {
        forall a | offset <= a < offset + length ensures Lookup(m.pieces, a).Some? {
          assert Findable(segments, base.MaximumAddress(), a);
        }
        CoveringIsContiguous(m.pieces, offset, offset + length);
      }
      r := LinearLayer.Read(base, m, offset, length, pad);
      if r.Err? && TargetsReadable(segments, |base.buffer|, offset, length) {
        LinearLayer.FailsWithFault(m, base.buffer, offset, pad, r.error);
      }
    }

    /** `write`: fails exactly when some address of the range is not found, at the first one,
        having written the bytes before it; it changes no byte of the file but the targets of
        the range, and no byte the layer shows at other addresses; what it has written is what
        the layer then shows. */
    method Write(offset: nat, value: seq<byte>) returns (fault: Option<Error>)
      requires Valid() && DisjointInFile(segments, |base.buffer|)
      modifies base
      ensures Valid() && |base.buffer| == |old(base.buffer)|
      ensures forall x :: 0 <= x < |base.buffer| && !IsTarget(segments, offset, |value|, x) ==>
                base.buffer[x] == old(base.buffer)[x]
      ensures forall b: nat :: !(offset <= b < offset + |value|) ==>
                ByteOf(segments, base.buffer, b) == old(ByteOf(segments, base.buffer, b))
      ensures fault == None <==> AllFindable(segments, base.MaximumAddress(), offset, |value|)
      ensures fault == None ==>
                forall a: nat :: offset <= a < offset + |value|
                    ==> ByteOf(segments, base.buffer, a) == value[a - offset]
      ensures fault.Some? ==>
                exists stop: nat :: fault == Some(InvalidAddress(stop))
                               && FirstMissing(segments, base.MaximumAddress(), offset, |value|, stop)
                               && forall a: nat :: offset <= a < stop
                                   ==> ByteOf(segments, base.buffer, a) == value[a - offset]
    {
      ghost var mem := base.buffer;
      var max := base.MaximumAddress();
      var raw := Map(segments, max, baseName, offset, |value|, false, true);
      ghost var stop := WriteReaches(segments, max, raw, offset, |value|);
      WriteShown(segments, max, raw.pieces, baseName, mem, offset, value, stop);
      var m := Mapping(Linearised(raw.pieces), raw.fault);
      ghost var done: nat;
      fault, done := LinearLayer.Write(base, m, offset, value);
      AllWritten(m.pieces, done, offset);
      WriteFrame(segments, max, raw.pieces, baseName, done, mem, offset, value);
      OtherBytesStay(segments, mem, base.buffer, offset, |value|);
    }
  }

  /** How far a strict mapping leads: to the first address that is not found, or to the end,
      and up to there without a gap. */
  lemma {:induction false} WriteReaches(segs: seq<Segment>, max: int, m: Mapping, offset: nat, length: nat)
    returns (stop: nat)
    requires Ascending(m.pieces) && Within(m.pieces, offset, offset + length)
    requires m.fault == None ==>
               SameCover(m.pieces, segs, offset, offset + length) && AllFindable(segs, max, offset, length)
    requires m.fault.Some? ==>
               exists stop: nat :: m.fault == Some(InvalidAddress(stop))
                   && FirstMissing(segs, max, offset, length, stop)
                              && Within(m.pieces, offset, stop) && SameCover(m.pieces, segs, offset, stop)
    ensures m.fault == None ==> stop == offset + length
    ensures m.fault.Some? ==> m.fault == Some(InvalidAddress(stop)) && FirstMissing(segs, max, offset, length, stop)
    ensures stop <= offset + length && FoundUpTo(segs, max, offset, stop)
    ensures Within(m.pieces, offset, stop) && forall a: nat :: offset <= a < stop ==> Lookup(m.pieces, a).Some?
    ensures Contiguous(Linearised(m.pieces), offset)
  {
    if m.fault == None {
      stop := offset + length;
    } else {
      stop :| m.fault == Some(InvalidAddress(stop)) && FirstMissing(segs, max, offset, length, stop)
              && Within(m.pieces, offset, stop) && SameCover(m.pieces, segs, offset, stop);
    }
    forall a: nat | offset <= a < stop ensures Lookup(m.pieces, a).Some? && Lookup(Linearised(m.pieces), a).Some? {
      LinearisedLookup(m.pieces, a);
      assert Findable(segs, max, a);
    }
    CoveringIsContiguous(Linearised(m.pieces), offset, stop);
  }

  lemma {:induction false} AllWritten(ps: seq<Piece>, done: nat, offset: nat)
    requires LinearLayer.StopsAt(ps, done, offset) && Contiguous(ps, offset)
    ensures done == |ps|
  {
    if done < |ps| { AllFollow(ps, done, offset); }
  }

  lemma AllFollow(ps: seq<Piece>, i: nat, offset: nat)
    requires Contiguous(ps, offset) && i < |ps|
    ensures Follows(ps, i, offset)
  {
  }
}
