/** Reading through encoded segments, and the AVML layer: any part of a memory range,
    read through the segments of its frames, is that part of the decompressed stream. */
module AvmlLayer {
  import opened Avml
  import opened Bits
  import opened Memory
  import opened Pieces
  import opened Segmented

  /** What is known of each segment by where its data is mapped: whether it is compressed. */
  type Compression = map<nat, bool>

  function Decoded(codec: Codec, mem: seq<byte>, c: Compression, s: Segment): Result<seq<byte>> {
    if s.mapped !in c || s.mapped + s.mappedLength > |mem| then Err(Malformed)
    else Decode(codec, c[s.mapped], mem[s.mapped..s.mapped + s.mappedLength])
  }

  /** The segment's data lies before the last byte of the file and decodes to its length;
      without data it is empty. */
  ghost predicate Sound(codec: Codec, mem: seq<byte>, c: Compression, s: Segment) {
    && s.mapped + 1 < |mem|
    && (s.mappedLength == 0 ==> s.length == 0)
    && var d := Decoded(codec, mem, c, s); d.Ok? && (s.length > 0 ==> |d.value| == s.length)
  }

  ghost predicate AllSound(codec: Codec, mem: seq<byte>, c: Compression, segs: seq<Segment>) {
    forall s :: s in segs ==> Sound(codec, mem, c, s)
  }

  /** Where data decodes to nothing, the lookup finds another segment. */
  predicate EmptyFound(segs: seq<Segment>, max: int, s: Segment) {
    s.length == 0 && s.mappedLength > 0 ==> Findable(segs, max, s.start)
  }

  ghost predicate EmptiesFound(segs: seq<Segment>, max: int) {
    forall s {:trigger EmptyFound(segs, max, s)} :: s in segs ==> EmptyFound(segs, max, s)
  }

  /** The byte the layer shows at `a`: from the decoded segment that covers it, or zero. */
  function ShownAt(codec: Codec, mem: seq<byte>, c: Compression, segs: seq<Segment>, a: nat): byte {
    var s := SegmentAt(segs, a);
    if s.None? then 0
    else
      var d := Decoded(codec, mem, c, s.value);
      if d.Ok? && a - s.value.start < |d.value| then d.value[a - s.value.start] else 0
  }

  function Shown(codec: Codec, mem: seq<byte>, c: Compression, segs: seq<Segment>, offset: nat, n: nat): (r: seq<byte>)
    ensures |r| == n
    ensures forall k :: 0 <= k < n ==> r[k] == ShownAt(codec, mem, c, segs, offset + k)
  {
    seq<byte>(n, k requires 0 <= k < n => ShownAt(codec, mem, c, segs, offset + k))
  }

  /** `_decode_data`: the whole segment is decoded and the requested part cut out. */
  method DecodeData(codec: Codec, segs: seq<Segment>, max: int, c: Compression, data: seq<byte>,
                    mappedOffset: nat, offset: nat, outputLength: nat) returns (r: Result<seq<byte>>)
    requires Sorted(segs, max) && mappedOffset in c
    ensures r == if !Findable(segs, max, offset) then Err(InvalidAddress(offset))
                 else
                   var d := Decode(codec, c[mappedOffset], data);
                   if d.Err? then d
                   else Ok(Part(d.value, offset - SegmentAt(segs, offset).value.start, outputLength))
  {
    var s := FindSegment(segs, max, offset);
    if s.None? {
      return Err(InvalidAddress(offset));
    }
    var decoded := data;
    if c[mappedOffset] {
      var d := codec(data);
      if d.Err? {
        return d;
      }
      decoded := d.value;
    }
    return Ok(Part(decoded, offset - s.value.start, outputLength));
  }

  /** `s[from:][:n]` with the bounds clamped. */
  function Part(s: seq<byte>, from: nat, n: nat): seq<byte> {
    var rest := s[Min(from, |s|)..];
    rest[..Min(n, |rest|)]
  }

  lemma {:induction false} PartInside(s: seq<byte>, from: nat, n: nat)
    requires from + n <= |s|
    ensures |Part(s, from, n)| == n && forall k :: 0 <= k < n ==> Part(s, from, n)[k] == s[from + k]
  {
  }

  // ---- the steps of a read ----

  /** No segment covers the gap before the next piece. */
  lemma {:induction false} GapShown(codec: Codec, mem: seq<byte>, c: Compression, segs: seq<Segment>, ps: seq<Piece>,
                                    i: nat, offset: nat, next: nat, hi: nat)
    requires Ascending(ps) && i <= |ps| && offset <= Reached(ps, i, offset) <= next <= hi
    requires SameCover(ps, segs, offset, hi)
    requires forall j :: i <= j < |ps| ==> next <= ps[j].offset
    ensures Shown(codec, mem, c, segs, offset, next - offset)
            == Shown(codec, mem, c, segs, offset, Reached(ps, i, offset) - offset)
               + Zeros(next - Reached(ps, i, offset))
  {
    forall a: nat | Reached(ps, i, offset) <= a < next ensures ShownAt(codec, mem, c, segs, a) == 0 {
      GapLookup(ps, i, offset, next, a);
    }
  }

  /** `part` is what the layer shows on piece `p`. */
  ghost predicate IsPart(codec: Codec, mem: seq<byte>, c: Compression, segs: seq<Segment>, p: Piece, part: seq<byte>) {
    |part| == p.length && forall k :: 0 <= k < p.length ==> part[k] == ShownAt(codec, mem, c, segs, p.offset + k)
  }

  lemma {:induction false} SoundReads(codec: Codec, mem: seq<byte>, c: Compression, s: Segment, p: Piece)
    requires Sound(codec, mem, c, s) && CutFrom(p, s, false)
    ensures p.mappedLength == 0 ==> p.length == 0
    ensures p.mappedLength > 0 ==> Readable(mem, p.mappedOffset, p.mappedLength)
    ensures p.mappedOffset == s.mapped && p.mappedLength == s.mappedLength && s.mapped + s.mappedLength <= |mem|
  {
  }

  /** The requested part of the decoded segment is what the layer shows there. */
  lemma {:induction false} DecodedPart(codec: Codec, mem: seq<byte>, c: Compression, segs: seq<Segment>, max: int,
                                       p: Piece, s: Segment, data: seq<byte>)
    returns (part: seq<byte>)
    requires Sorted(segs, max) && s in segs && Sound(codec, mem, c, s) && CutFrom(p, s, false) && s.mappedLength > 0
    requires max == |mem| - 1 && EmptiesFound(segs, max)
    requires data == mem[s.mapped..s.mapped + s.mappedLength]
    ensures IsPart(codec, mem, c, segs, p, part)
    ensures Findable(segs, max, p.offset) && p.mappedOffset in c
    ensures var d := Decode(codec, c[p.mappedOffset], data);
            d.Ok? && part == Part(d.value, p.offset - SegmentAt(segs, p.offset).value.start, p.length)
  {
    if s.length == 0 {
      assert EmptyFound(segs, max, s);
      part := [];
    } else {
      part := FullPart(codec, mem, c, segs, max, p, s);
    }
  }

  lemma {:induction false} FullPart(codec: Codec, mem: seq<byte>, c: Compression, segs: seq<Segment>, max: int,
                                    p: Piece, s: Segment)
    returns (part: seq<byte>)
    requires Sorted(segs, max) && s in segs && Sound(codec, mem, c, s) && CutFrom(p, s, false) && s.length > 0
    ensures IsPart(codec, mem, c, segs, p, part) && SegmentAt(segs, p.offset) == Some(s)
    ensures part == Part(Decoded(codec, mem, c, s).value, p.offset - s.start, p.length)
  {
    var i :| 0 <= i < |segs| && segs[i] == s;
    var d, from := Decoded(codec, mem, c, s).value, p.offset - s.start;
    SegmentAtIndex(segs, max, i, p.offset);
    part := Part(d, from, p.length);
    PartIsShown(codec, mem, c, segs, max, p, i, d, from);
  }

  lemma {:induction false} PartIsShown(codec: Codec, mem: seq<byte>, c: Compression, segs: seq<Segment>, max: int,
                                       p: Piece, i: nat, d: seq<byte>, from: nat)
    requires Sorted(segs, max) && i < |segs| && p.offset == segs[i].start + from && p.End() <= segs[i].End()
    requires Decoded(codec, mem, c, segs[i]) == Ok(d) && |d| == segs[i].length
    ensures IsPart(codec, mem, c, segs, p, Part(d, from, p.length))
  {
    PartInside(d, from, p.length);
    forall k | 0 <= k < p.length ensures Part(d, from, p.length)[k] == ShownAt(codec, mem, c, segs, p.offset + k) {
      DecodedByte(codec, mem, c, segs, max, i, p.offset + k, d, from + k);
    }
  }

  lemma {:induction false} DecodedByte(codec: Codec, mem: seq<byte>, c: Compression, segs: seq<Segment>, max: int,
                                       i: nat, a: nat, d: seq<byte>, k: nat)
    requires Sorted(segs, max) && i < |segs| && a == segs[i].start + k && k < |d|
    requires Decoded(codec, mem, c, segs[i]) == Ok(d) && |d| == segs[i].length
    ensures ShownAt(codec, mem, c, segs, a) == d[k]
  {
    SegmentAtIndex(segs, max, i, a);
    ShownInSegment(codec, mem, c, segs, segs[i], a, d);
  }

  lemma {:induction false} ShownInSegment(codec: Codec, mem: seq<byte>, c: Compression, segs: seq<Segment>,
                                          s: Segment, a: nat, d: seq<byte>)
    requires SegmentAt(segs, a) == Some(s) && Decoded(codec, mem, c, s) == Ok(d) && |d| == s.length
    ensures ShownAt(codec, mem, c, segs, a) == d[a - s.start]
  {
  }

  /** One piece further: zeros up to it, then its part. */
  lemma {:induction false} ShowNext(codec: Codec, mem: seq<byte>, c: Compression, segs: seq<Segment>,
                                    ps: seq<Piece>, i: nat, offset: nat, hi: nat, part: seq<byte>)
    requires Ascending(ps) && Within(ps, offset, hi) && SameCover(ps, segs, offset, hi) && i < |ps|
    requires IsPart(codec, mem, c, segs, ps[i], part)
    ensures offset <= Reached(ps, i, offset) <= ps[i].offset && Reached(ps, i + 1, offset) == ps[i].End() <= hi
    ensures Shown(codec, mem, c, segs, offset, Reached(ps, i, offset) - offset)
            + Zeros(ps[i].offset - Reached(ps, i, offset)) + part
            == Shown(codec, mem, c, segs, offset, ps[i].End() - offset)
  {
    var current, p := Reached(ps, i, offset), ps[i];
    NextPieces(ps, i, offset, current);
    GapShown(codec, mem, c, segs, ps, i, offset, p.offset, hi);
  }

  class AvmlLayer {
    const base: BufferDataLayer
    const baseName: string
    const codec: Codec
    var segments: seq<Segment>
    var compressed: Compression

    constructor (base: BufferDataLayer, baseName: string, codec: Codec, segments: seq<Segment>, compressed: Compression)
      ensures this.base == base && this.codec == codec && this.segments == segments && this.compressed == compressed
    {
      this.base, this.baseName, this.codec := base, baseName, codec;
      this.segments, this.compressed := segments, compressed;
    }

    ghost predicate Valid()
      reads this, base
    {
      && Sorted(segments, base.MaximumAddress()) && AllSound(codec, base.buffer, compressed, segments)
      && EmptiesFound(segments, base.MaximumAddress())
    }

    /** Reads and decodes the data of one piece. */
    method ReadPiece(p: Piece) returns (r: Result<seq<byte>>)
      requires Valid()
      requires exists s :: s in segments && CutFrom(p, s, false)
      ensures r.Ok? && IsPart(codec, base.buffer, compressed, segments, p, r.value)
    {
      ghost var s :| s in segments && CutFrom(p, s, false);
      SoundReads(codec, base.buffer, compressed, s, p);
      if p.mappedLength == 0 {
        return Ok([]);
      }
      var data := base.Read(p.mappedOffset, p.mappedLength);
      if data.Err? {
        return data;
      }
      assert data.value == base.buffer[s.mapped..s.mapped + s.mappedLength];
      ghost var part := DecodedPart(codec, base.buffer, compressed, segments, base.MaximumAddress(), p, s, data.value);
      r := DecodeData(codec, segments, base.MaximumAddress(), compressed, data.value,
                      p.mappedOffset, p.offset, p.length);
      assert r == Ok(part);
      if r.Ok? && |r.value| != p.length {
        return Err(LengthMismatch);
      }
    }

    /** `read` of the layers that are not mapped linearly. It succeeds exactly when every
        needed address is found or errors are padded, and returns what the segments show.
        An exception of the mapping is raised before any piece is read here. */
    method Read(offset: nat, length: nat, pad: bool) returns (r: Result<seq<byte>>)
      requires Valid()
      ensures r.Ok? <==> pad || AllFindable(segments, base.MaximumAddress(), offset, length)
      ensures r.Ok? ==> r.value == Shown(codec, base.buffer, compressed, segments, offset, length)
      ensures r.Err? ==>
                exists stop: nat :: r.error == InvalidAddress(stop)
                               && FirstMissing(segments, base.MaximumAddress(), offset, length, stop)
    {
      var max, end := base.MaximumAddress(), offset + length;
      var m := Map(segments, max, baseName, offset, length, pad, false);
      if m.fault.Some? {
        return Err(m.fault.value);
      }
      if !pad {
        forall a | offset <= a < end ensures Lookup(m.pieces, a).Some? {
          assert Findable(segments, max, a);
        }
        CoveringIsContiguous(m.pieces, offset, end);
      }
      r := ReadPieces(m.pieces, offset, length, pad);
    }

    /** One turn of the loop of `read`: zeros up to the piece, then its part. */
    method ReadNext(p: Piece, current: nat, output: seq<byte>, ghost ps: seq<Piece>, ghost i: nat, ghost next: nat,
                    ghost offset: nat, ghost hi: nat)
      returns (r: Result<seq<byte>>)
      requires Valid() && Ascending(ps) && Within(ps, offset, hi) && SameCover(ps, segments, offset, hi)
      requires i < |ps| && next == i + 1 && p == ps[i] && offset <= current == Reached(ps, i, offset)
      requires exists s :: s in segments && CutFrom(p, s, false)
      requires output == Shown(codec, base.buffer, compressed, segments, offset, current - offset)
      ensures p.End() == Reached(ps, next, offset) <= hi && offset <= p.End()
      ensures r == Ok(Shown(codec, base.buffer, compressed, segments, offset, p.End() - offset))
    {
      NextPieces(ps, i, offset, current);
      var part := ReadPiece(p);
      ShowNext(codec, base.buffer, compressed, segments, ps, i, offset, hi, part.value);
      return Ok(output + Zeros(p.offset - current) + part.value);
    }

    /** The loop of `read`. */
    method ReadPieces(ps: seq<Piece>, offset: nat, length: nat, pad: bool) returns (r: Result<seq<byte>>)
      requires Valid() && Ascending(ps) && Within(ps, offset, offset + length)
      requires SameCover(ps, segments, offset, offset + length) && AllCut(ps, segments, baseName, false)
      requires pad || Contiguous(ps, offset)
      ensures r == Ok(Shown(codec, base.buffer, compressed, segments, offset, length))
    {
      var current: nat, output: seq<byte> := offset, [];
      ghost var hi := offset + length;
      var i := 0;
      while i < |ps|
        invariant i <= |ps| && current == Reached(ps, i, offset) && offset <= current <= hi
        invariant output == Shown(codec, base.buffer, compressed, segments, offset, current - offset)
      {
        var p, next := ps[i], i + 1;
        assert pad || Follows(ps, i, offset);
        if !pad && p.offset > current {
          assert false;
        }
        var more := ReadNext(p, current, output, ps, i, next, offset, hi);
        output, current, i := more.value, p.End(), next;
      }
      GapShown(codec, base.buffer, compressed, segments, ps, |ps|, offset, hi, hi);
      assert length - |output| == hi - current;
      return Ok(output + Zeros(length - |output|));
    }
  }
}
