/** One memory range of an AVML file: the segments recorded for its frames, and the
    proof that a layer with these segments shows the decompressed stream there. */
module AvmlRange {
  import opened Avml
  import opened AvmlLayer
  import opened Bits
  import opened Memory
  import opened Segmented

  /** A range: its first address, where its data starts in the file, the data, how many bytes
      are expected, the frames read from it, and how much of the data they took. */
  datatype Range = Range(start: nat, at: nat, data: seq<byte>, expected: int, frames: seq<Frame>, consumed: nat)

  /** The segment of a frame. */
  function Placed(r: Range, i: nat): Segment
    requires i < |r.frames|
  {
    var f := r.frames[i];
    Segment(r.start + f.start, r.at + f.mapped, f.length, Max(f.mappedLength, 0))
  }

  /** The segments recorded for the first `n` frames. */
  function RangeSegments(r: Range, n: nat): (segs: seq<Segment>)
    requires n <= |r.frames|
    ensures |segs| == n && forall i :: 0 <= i < n ==> segs[i] == Placed(r, i)
  {
    seq(n, i requires 0 <= i < n => Placed(r, i))
  }

  /** What is known after the first `n` frames of a range, when `c` was known before. */
  function RangeCompression(c: Compression, r: Range, n: nat): Compression
    requires n <= |r.frames|
  {
    if n == 0 then c
    else RangeCompression(c, r, n - 1)[r.at + r.frames[n - 1].mapped := r.frames[n - 1].compressed]
  }

  /** The loop of `_load_segments` that records the frames of one range. */
  method RecordFrames(r: Range, segs0: seq<Segment>, c0: Compression) returns (segs: seq<Segment>, c: Compression)
    ensures segs == segs0 + RangeSegments(r, |r.frames|) && c == RangeCompression(c0, r, |r.frames|)
  {
    segs, c := segs0, c0;
    for i := 0 to |r.frames|
      invariant segs == segs0 + RangeSegments(r, i) && c == RangeCompression(c0, r, i)
    {
      assert RangeSegments(r, i + 1) == RangeSegments(r, i) + [Placed(r, i)];
      segs := segs + [Placed(r, i)];
      c := c[r.at + r.frames[i].mapped := r.frames[i].compressed];
    }
  }

  lemma {:induction false} TilesOrder(frames: seq<Frame>, produced: nat, from: int, to: int, i: nat, j: nat)
    requires Tiles(frames, produced, from, to) && i < j < |frames|
    ensures frames[i].start + frames[i].length <= frames[j].start
    ensures frames[i].mapped + frames[i].mappedLength + 8 <= frames[j].mapped
    decreases |frames|
  {
    var rest, f := frames[1..], frames[0];
    if i == 0 {
      TilesBounds(rest, f.start + f.length, f.mapped + f.mappedLength, to, j - 1);
    } else {
      TilesOrder(rest, f.start + f.length, f.mapped + f.mappedLength, to, i - 1, j - 1);
    }
  }

  lemma {:induction false} TilesBounds(frames: seq<Frame>, produced: nat, from: int, to: int, j: nat)
    requires Tiles(frames, produced, from, to) && j < |frames|
    ensures produced <= frames[j].start && from + 8 <= frames[j].mapped
    decreases |frames|
  {
    if j > 0 {
      var f := frames[0];
      TilesBounds(frames[1..], f.start + f.length, f.mapped + f.mappedLength, to, j - 1);
    }
  }

  lemma {:induction false} TilesEnd(frames: seq<Frame>, produced: nat, from: int, to: int, j: nat)
    requires Tiles(frames, produced, from, to) && j < |frames|
    requires forall i :: 0 <= i < |frames| ==> frames[i].mappedLength >= 0
    ensures frames[j].start + frames[j].length <= produced + FramesLength(frames)
    ensures frames[j].mapped + frames[j].mappedLength <= to
    decreases |frames|
  {
    var f, rest := frames[0], frames[1..];
    if j > 0 {
      TilesEnd(rest, produced + f.length, f.mapped + f.mappedLength, to, j - 1);
    } else if rest != [] {
      TilesEnd(rest, produced + f.length, f.mapped + f.mappedLength, to, 0);
      TilesBounds(rest, produced + f.length, f.mapped + f.mappedLength, to, 0);
    }
  }

  lemma {:induction false} WholeBytes(codec: Codec, data: seq<byte>, f: Frame)
    requires Whole(f, data) && DecodesToLength(codec, data, f)
    ensures |FrameBytes(codec, data, f)| == f.length
  {
  }

  /** Every frame gives as many bytes as its recorded length. */
  ghost predicate Lengths(codec: Codec, data: seq<byte>, frames: seq<Frame>) {
    forall i :: 0 <= i < |frames| ==> |FrameBytes(codec, data, frames[i])| == frames[i].length
  }

  lemma {:induction false} LengthsMatch(codec: Codec, data: seq<byte>, frames: seq<Frame>)
    requires AllWhole(frames, data) && AllDecode(codec, data, frames)
    ensures Lengths(codec, data, frames)
  {
    forall i | 0 <= i < |frames| ensures |FrameBytes(codec, data, frames[i])| == frames[i].length {
      assert frames[i] in frames;
      WholeBytes(codec, data, frames[i]);
    }
  }

  lemma {:induction false} ConcatAt(head: seq<byte>, tail: seq<byte>, o: nat, k: nat)
    requires o == |head| + k && k < |tail|
    ensures (head + tail)[o] == tail[k]
  {
  }

  lemma {:induction false} LengthsTail(codec: Codec, data: seq<byte>, frames: seq<Frame>)
    requires Lengths(codec, data, frames) && frames != []
    ensures Lengths(codec, data, frames[1..]) && |FrameBytes(codec, data, frames[0])| == frames[0].length
  {
    forall i | 0 <= i < |frames[1..]| ensures |FrameBytes(codec, data, frames[1..][i])| == frames[1..][i].length {
      assert frames[1..][i] == frames[i + 1];
    }
  }

  /** Byte `o` of the stream belongs to one frame. */
  lemma {:induction false} StreamByte(codec: Codec, data: seq<byte>, frames: seq<Frame>, produced: nat, from: int,
                                      to: int, o: nat)
    returns (i: nat, k: nat)
    requires Tiles(frames, produced, from, to) && Lengths(codec, data, frames)
    requires o < FramesLength(frames) == |Stream(codec, data, frames)|
    ensures i < |frames| && produced + o == frames[i].start + k
              && k < |FrameBytes(codec, data, frames[i])| == frames[i].length
    ensures Stream(codec, data, frames)[o] == FrameBytes(codec, data, frames[i])[k]
    decreases |frames|
  {
    var f, rest := frames[0], frames[1..];
    var head, tail := FrameBytes(codec, data, f), Stream(codec, data, rest);
    LengthsTail(codec, data, frames);
    if o < f.length {
      i, k := 0, o;
    } else {
      var j, o' := 0, o - f.length;
      j, k := StreamByte(codec, data, rest, produced + f.length, f.mapped + f.mappedLength, to, o');
      ConcatAt(head, tail, o, o');
      i := j + 1;
    }
  }

  lemma {:induction false} StreamLength(codec: Codec, data: seq<byte>, frames: seq<Frame>)
    requires Lengths(codec, data, frames)
    ensures |Stream(codec, data, frames)| == FramesLength(frames)
  {
    if frames != [] {
      StreamLength(codec, data, frames[1..]);
    }
  }

  /** The file holds the stream's data at `at`, and at least one byte after it. */
  ghost predicate Holds(file: seq<byte>, at: nat, data: seq<byte>) {
    at + |data| < |file| && file[at..at + |data|] == data
  }

  lemma {:induction false} PartOfFile(file: seq<byte>, at: nat, data: seq<byte>, lo: nat, hi: nat)
    requires Holds(file, at, data) && lo <= hi <= |data|
    ensures file[at + lo..at + hi] == data[lo..hi]
  {
    forall k | 0 <= k < hi - lo ensures file[at + lo..at + hi][k] == data[lo..hi][k] {
      assert file[at..at + |data|][lo + k] == file[at + (lo + k)];
    }
  }

  /** The range is made of whole frames of a stream whose data the file holds. */
  ghost predicate Recording(codec: Codec, file: seq<byte>, r: Range) {
    && Tiles(r.frames, 0, 0, r.consumed) && AllWhole(r.frames, r.data) && AllDecode(codec, r.data, r.frames)
    && LastGives(r.frames) && (r.frames != [] ==> Holds(file, r.at, r.data))
    && |Stream(codec, r.data, r.frames)| == FramesLength(r.frames)
  }

  /** The payload of every frame, empty or not, starts before the end of the data. */
  lemma {:induction false} StartsInside(codec: Codec, file: seq<byte>, r: Range, i: nat)
    requires Recording(codec, file, r) && i < |r.frames|
    ensures r.frames[i].mapped < |r.data|
  {
    var last := |r.frames| - 1;
    assert Whole(r.frames[i], r.data) && Whole(r.frames[last], r.data);
    if i < last { TilesOrder(r.frames, 0, 0, r.consumed, i, last); }
  }

  lemma {:induction false} TilesNext(frames: seq<Frame>, produced: nat, from: int, to: int, i: nat)
    requires Tiles(frames, produced, from, to) && i + 1 < |frames|
    ensures frames[i + 1].start == frames[i].start + frames[i].length
    decreases |frames|
  {
    if i > 0 {
      var f, rest := frames[0], frames[1..];
      TilesNext(rest, f.start + f.length, f.mapped + f.mappedLength, to, i - 1);
      assert rest[i] == frames[i + 1] && rest[i - 1] == frames[i];
    }
  }

  /** The first frame from `i` on that gives bytes starts where the empty ones before it do. */
  lemma {:induction false} NextGives(frames: seq<Frame>, to: int, i: nat) returns (j: nat)
    requires Tiles(frames, 0, 0, to) && LastGives(frames) && i < |frames|
    ensures i <= j < |frames| && frames[j].length > 0 && frames[j].start == frames[i].start
    decreases |frames| - i
  {
    if frames[i].length > 0 {
      j := i;
    } else {
      TilesNext(frames, 0, 0, to, i);
      j := NextGives(frames, to, i + 1);
    }
  }

  ghost predicate Knows(c: Compression, r: Range, i: nat)
    requires i < |r.frames|
  {
    r.at + r.frames[i].mapped in c && c[r.at + r.frames[i].mapped] == r.frames[i].compressed
  }

  /** The segments of the range are among the segments of a layer, and what is known of them. */
  ghost predicate Includes(segs: seq<Segment>, c: Compression, r: Range) {
    forall i :: 0 <= i < |r.frames| ==> Placed(r, i) in segs && Knows(c, r, i)
  }

  lemma {:induction false} FrameDecodes(codec: Codec, file: seq<byte>, at: nat, data: seq<byte>, f: Frame)
    requires Holds(file, at, data) && Whole(f, data) && DecodesToLength(codec, data, f)
    ensures at + f.mapped + f.mappedLength <= |file| && |FrameBytes(codec, data, f)| == f.length
    ensures Decode(codec, f.compressed, file[at + f.mapped..at + f.mapped + f.mappedLength])
            == Ok(FrameBytes(codec, data, f))
  {
    PartOfFile(file, at, data, f.mapped, f.mapped + f.mappedLength);
    assert at + (f.mapped + f.mappedLength) == at + f.mapped + f.mappedLength;
  }

  /** A recorded segment decodes, from the file, to the bytes of its frame. */
  lemma {:induction false} PlacedDecodes(codec: Codec, file: seq<byte>, r: Range, c: Compression, i: nat)
    requires Recording(codec, file, r) && i < |r.frames| && Knows(c, r, i)
    ensures Sound(codec, file, c, Placed(r, i))
    ensures Decoded(codec, file, c, Placed(r, i)) == Ok(FrameBytes(codec, r.data, r.frames[i]))
  {
    StartsInside(codec, file, r, i);
    var f := r.frames[i];
    assert f in r.frames && Whole(f, r.data) && DecodesToLength(codec, r.data, f);
    FrameDecodes(codec, file, r.at, r.data, f);
  }

  lemma {:induction false} RangeByte(codec: Codec, file: seq<byte>, r: Range, segs: seq<Segment>, c: Compression,
                                     a: nat)
    requires Recording(codec, file, r) && Includes(segs, c, r) && Sorted(segs, |file| - 1)
    requires r.start <= a < r.start + FramesLength(r.frames)
    ensures Findable(segs, |file| - 1, a)
    ensures ShownAt(codec, file, c, segs, a) == Stream(codec, r.data, r.frames)[a - r.start]
  {
    LengthsMatch(codec, r.data, r.frames);
    var i, k := StreamByte(codec, r.data, r.frames, 0, 0, r.consumed, a - r.start);
    IncludedAt(r, segs, c, |file| - 1, i, a);
    PlacedShown(codec, file, r, segs, c, i, k, a);
  }

  lemma {:induction false} IncludedAt(r: Range, segs: seq<Segment>, c: Compression, max: int, i: nat, a: nat)
    requires Includes(segs, c, r) && Sorted(segs, max)
    requires i < |r.frames| && Placed(r, i).Contains(a)
    ensures SegmentAt(segs, a) == Some(Placed(r, i)) && Knows(c, r, i)
  {
    assert Placed(r, i) in segs;
    var j :| 0 <= j < |segs| && segs[j] == Placed(r, i);
    SegmentAtIndex(segs, max, j, a);
  }

  lemma {:induction false} PlacedShown(codec: Codec, file: seq<byte>, r: Range, segs: seq<Segment>, c: Compression,
                                       i: nat, k: nat, a: nat)
    requires Recording(codec, file, r) && i < |r.frames| && a == r.start + r.frames[i].start + k
    requires k < |FrameBytes(codec, r.data, r.frames[i])| == r.frames[i].length
    requires SegmentAt(segs, a) == Some(Placed(r, i)) && Knows(c, r, i)
    ensures Findable(segs, |file| - 1, a)
    ensures ShownAt(codec, file, c, segs, a) == FrameBytes(codec, r.data, r.frames[i])[k]
  {
    PlacedDecodes(codec, file, r, c, i);
    ShownInSegment(codec, file, c, segs, Placed(r, i), a, FrameBytes(codec, r.data, r.frames[i]));
  }

  /** Any part of a range, read through a layer that includes its segments, is that part of
      the concatenated decompressed frames. */
  lemma {:induction false} RangeShowsStream(codec: Codec, file: seq<byte>, r: Range, segs: seq<Segment>,
                                            c: Compression, a: nat, o: nat, n: nat)
    requires Recording(codec, file, r) && Includes(segs, c, r) && Sorted(segs, |file| - 1)
    requires a == r.start + o && o + n <= |Stream(codec, r.data, r.frames)|
    ensures FoundUpTo(segs, |file| - 1, a, a + n)
    ensures Shown(codec, file, c, segs, a, n) == Stream(codec, r.data, r.frames)[o..o + n]
  {
    var stream, max := Stream(codec, r.data, r.frames), |file| - 1;
    forall b: nat | r.start <= b < r.start + |stream|
      ensures ShownAt(codec, file, c, segs, b) == stream[b - r.start] && Findable(segs, max, b)
    {
      RangeByte(codec, file, r, segs, c, b);
    }
    ShownIsSlice(codec, file, c, segs, r.start, stream, a, o, n);
  }

  lemma {:induction false} ShownIsSlice(codec: Codec, mem: seq<byte>, c: Compression, segs: seq<Segment>,
                                        start: nat, stream: seq<byte>, a: nat, o: nat, n: nat)
    requires forall b: nat :: start <= b < start + |stream| ==> ShownAt(codec, mem, c, segs, b) == stream[b - start]
    requires a == start + o && o + n <= |stream|
    ensures Shown(codec, mem, c, segs, a, n) == stream[o..o + n]
  {
  }
}
