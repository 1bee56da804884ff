/** Loading an AVML file: the loop over its memory ranges, and the proof that a layer with the
    loaded segments shows the decompressed stream of every range. */
module AvmlFile {
  import opened Avml
  import opened AvmlLayer
  import opened AvmlRange
  import opened Bits
  import opened Memory
  import opened PageTables
  import opened Segmented

  const MAGIC: nat := 0x4C4D5641
  const HEADER_SIZE: nat := 32

  datatype Header = Header(magic: nat, version: nat, start: nat, end: nat)

  function HeaderAt(file: seq<byte>, offset: nat): Header
    requires offset + HEADER_SIZE <= |file|
  {
    Header(LittleEndian(file[offset..offset + 4]), LittleEndian(file[offset + 4..offset + 8]),
           LittleEndian(file[offset + 8..offset + 16]), LittleEndian(file[offset + 16..offset + 24]))
  }

  /** What the base layer gives for a length that may be zero or less. */
  function ReadChunk(file: seq<byte>, at: nat, length: int): Result<seq<byte>> {
    if !Readable(file, at, length) then Err(InvalidAddress(if 0 < at <= |file| - 1 then |file| else at))
    else Ok(file[at..at + Max(0, length)])
  }

  /** How loading ends; `Endless` is a range whose reader never returns. */
  datatype Loading = Loaded(ranges: seq<Range>) | Failed(error: Error) | Endless

  /** The range whose header is at `offset`, or how loading ends there. */
  function RangeAt(codec: Codec, file: seq<byte>, offset: nat): (l: Loading)
    ensures l.Loaded? ==> |l.ranges| == 1 && l.ranges[0].at == offset + HEADER_SIZE
  {
    var header := ReadChunk(file, offset, HEADER_SIZE);
    if header.Err? then Failed(header.error)
    else
      var h, at := HeaderAt(file, offset), offset + HEADER_SIZE;
      if h.magic != MAGIC || h.version != 2 then Failed(Malformed) else RangeWith(codec, file, h, at)
  }

  /** The range with header `h` whose data starts at `at`. */
  function RangeWith(codec: Codec, file: seq<byte>, h: Header, at: nat): (l: Loading)
    ensures l.Loaded? ==> |l.ranges| == 1 && l.ranges[0].at == at
  {
    var data := ReadChunk(file, at, Min(h.end - h.start, |file| - 1 - at));
    if data.Err? then Failed(data.error)
    else RangeOf(h, at, data.value, ReadStream(codec, data.value, h.end - h.start))
  }

  function RangeOf(h: Header, at: nat, data: seq<byte>, o: Outcome): Loading {
    match o
    case Raised(e) => Failed(e)
    case Hangs => Endless
    case Frames(frames, consumed) => Loaded([Range(h.start, at, data, h.end - h.start, frames, consumed)])
  }

  function NextHeader(r: Range): nat {
    r.at + r.consumed + 8
  }

  /** Puts ranges before what is loaded after them. */
  function Before(rs: seq<Range>, l: Loading): Loading {
    if l.Loaded? then Loaded(rs + l.ranges) else l
  }

  function LoadFrom(codec: Codec, file: seq<byte>, offset: nat): Loading
    decreases Max(0, |file| - offset)
  {
    if offset + 4 >= |file| - 1 then Loaded([])
    else
      var l := RangeAt(codec, file, offset);
      if !l.Loaded? then l else Before(l.ranges, LoadFrom(codec, file, NextHeader(l.ranges[0])))
  }

  /** The segments of the first `n` ranges, and what is known of them. */
  function AllSegments(rs: seq<Range>, n: nat): seq<Segment>
    requires n <= |rs|
  {
    if n == 0 then [] else AllSegments(rs, n - 1) + RangeSegments(rs[n - 1], |rs[n - 1].frames|)
  }

  function AllCompression(rs: seq<Range>, n: nat): Compression
    requires n <= |rs|
  {
    if n == 0 then map[] else RangeCompression(AllCompression(rs, n - 1), rs[n - 1], |rs[n - 1].frames|)
  }

  datatype FileResult = Segments(segments: seq<Segment>, compressed: Compression) | Fails(error: Error) | NeverReturns

  function ResultOf(l: Loading): FileResult {
    match l
    case Loaded(rs) => Segments(AllSegments(rs, |rs|), AllCompression(rs, |rs|))
    case Failed(e) => Fails(e)
    case Endless => NeverReturns
  }

  lemma {:induction false} AllOfPrefix(rs: seq<Range>, r: Range, n: nat)
    requires n <= |rs|
    ensures AllSegments(rs + [r], n) == AllSegments(rs, n) && AllCompression(rs + [r], n) == AllCompression(rs, n)
  {
    if n > 0 {
      AllOfPrefix(rs, r, n - 1);
      assert (rs + [r])[n - 1] == rs[n - 1];
    }
  }

  /** The data of a range: from `at` as many bytes as are expected, but not the last of the file. */
  predicate TakenFrom(file: seq<byte>, r: Range) {
    && |r.data| == Max(0, Min(r.expected, |file| - 1 - r.at)) && r.at + |r.data| <= |file|
    && r.data == file[r.at..r.at + |r.data|]
  }

  /** The frames of a range are what is read from its data; they tile its stream, past the
      expected length, the last of them is not empty, and the file holds the data. */
  ghost predicate WellRead(codec: Codec, file: seq<byte>, r: Range) {
    && TakenFrom(file, r)
    && ReadStream(codec, r.data, r.expected) == Frames(r.frames, r.consumed)
    && Tiles(r.frames, 0, 0, r.consumed) && AllDecode(codec, r.data, r.frames) && FramesLength(r.frames) > r.expected
    && LastGives(r.frames) && (r.frames != [] ==> Holds(file, r.at, r.data))
  }

  lemma {:induction false} ReadIsWellRead(codec: Codec, file: seq<byte>, r: Range)
    requires TakenFrom(file, r)
    requires ReadStream(codec, r.data, r.expected) == Frames(r.frames, r.consumed)
    requires r.frames != [] ==> Holds(file, r.at, r.data)
    ensures WellRead(codec, file, r)
  {
    FramesTile(codec, r.data, r.expected, 0, 0);
    LastFrameGives(codec, r.data, r.expected, 0, 0);
  }

  lemma {:induction false} RangeIsWellRead(codec: Codec, file: seq<byte>, offset: nat)
    requires RangeAt(codec, file, offset).Loaded?
    ensures WellRead(codec, file, RangeAt(codec, file, offset).ranges[0])
  {
    var h, at := HeaderAt(file, offset), offset + HEADER_SIZE;
    var length := Min(h.end - h.start, |file| - 1 - at);
    var data := ReadChunk(file, at, length).value;
    if length < 0 { assert ReadStream(codec, data, h.end - h.start).frames == []; }
    ReadIsWellRead(codec, file, RangeAt(codec, file, offset).ranges[0]);
  }

  /** A range is loaded exactly if the frames of its data give more than is expected; it never
      ends exactly if they are all good and do not. */
  lemma {:induction false} RangeLoadsIff(codec: Codec, file: seq<byte>, h: Header, at: nat, data: seq<byte>)
    requires ReadChunk(file, at, Min(h.end - h.start, |file| - 1 - at)) == Ok(data)
    ensures var s := SupplyFrom(codec, data, 0);
            && (RangeWith(codec, file, h, at).Loaded? <==> s.bytes > h.end - h.start)
            && (RangeWith(codec, file, h, at).Endless? <==> s.clean && s.bytes <= h.end - h.start)
  {
    HangsIffTooShort(codec, data, h.end - h.start, 0, 0);
  }

  /** A range without compressed frames is never loaded: no more bytes are read than are expected,
      and the frame headers take some of them. */
  lemma {:induction false} PlainRangeIsNotLoaded(codec: Codec, file: seq<byte>, h: Header, at: nat, data: seq<byte>)
    requires ReadChunk(file, at, Min(h.end - h.start, |file| - 1 - at)) == Ok(data)
    requires h.start <= h.end && NoneCompressed(data, 0)
    ensures !RangeWith(codec, file, h, at).Loaded?
    ensures RangeWith(codec, file, h, at).Endless? <==> SupplyFrom(codec, data, 0).clean
  {
    PlainSupply(codec, data, 0);
    RangeLoadsIff(codec, file, h, at, data);
  }

  /** One turn of `_load_segments`: the header and the frames of one range. */
  method LoadRange(base: BufferDataLayer, codec: Codec, offset: nat) returns (l: Loading)
    ensures l == RangeAt(codec, base.buffer, offset)
    ensures l.Loaded? ==> |l.ranges| == 1 && WellRead(codec, base.buffer, l.ranges[0])
    ensures l.Loaded? ==> l.ranges[0].at == offset + HEADER_SIZE <= |base.buffer|
    ensures l.Loaded? ==> var h := HeaderAt(base.buffer, offset);
              h.magic == MAGIC && h.version == 2 && l.ranges[0].start == h.start
                  && l.ranges[0].expected == h.end - h.start
  {
    ghost var goal := RangeAt(codec, base.buffer, offset);
    if goal.Loaded? {
      RangeIsWellRead(codec, base.buffer, offset);
    }
    var header := base.Read(offset, HEADER_SIZE);
    if header.Err? {
      return Failed(header.error);
    }
    var h, at := HeaderAt(base.buffer, offset), offset + HEADER_SIZE;
    if h.magic != MAGIC || h.version != 2 {
      return Failed(Malformed);
    }
    l := LoadData(base, codec, h, at);
  }

  method LoadData(base: BufferDataLayer, codec: Codec, h: Header, at: nat) returns (l: Loading)
    ensures l == RangeWith(codec, base.buffer, h, at)
  {
    var chunk := base.Read(at, Min(h.end - h.start, base.MaximumAddress() - at));
    if chunk.Err? {
      return Failed(chunk.error);
    }
    var o := ReadSnappyFrames(codec, chunk.value, h.end - h.start);
    return RangeOf(h, at, chunk.value, o);
  }

  /** `_load_segments`. */
  method LoadSegments(base: BufferDataLayer, codec: Codec) returns (r: FileResult)
    ensures r == ResultOf(LoadFrom(codec, base.buffer, 0))
  {
    var offset: nat, segments: seq<Segment>, compressed: Compression := 0, [], map[];
    ghost var done: seq<Range> := [];
    ghost var goal := LoadFrom(codec, base.buffer, 0);
    BeforeNothing(goal);
    while offset + 4 < base.MaximumAddress()
      invariant goal == Before(done, LoadFrom(codec, base.buffer, offset))
      invariant segments == AllSegments(done, |done|) && compressed == AllCompression(done, |done|)
      decreases |base.buffer| - offset
    {
      var l := LoadRange(base, codec, offset);
      if l.Failed? {
        return Fails(l.error);
      } else if l.Endless? {
        return NeverReturns;
      }
      var range := l.ranges[0];
      NextRange(codec, base.buffer, offset, done, range, goal);
      segments, compressed := RecordFrames(range, segments, compressed);
      done, offset := done + [range], NextHeader(range);
    }
    assert done + [] == done;
    return Segments(segments, compressed);
  }

  /** One more range is loaded. */
  lemma {:induction false} NextRange(codec: Codec, file: seq<byte>, offset: nat, done: seq<Range>, r: Range,
                                     goal: Loading)
    requires offset + 4 < |file| - 1 && goal == Before(done, LoadFrom(codec, file, offset))
    requires RangeAt(codec, file, offset).Loaded? && r == RangeAt(codec, file, offset).ranges[0]
    ensures goal == Before(done + [r], LoadFrom(codec, file, NextHeader(r)))
    ensures AllSegments(done + [r], |done| + 1) == AllSegments(done, |done|) + RangeSegments(r, |r.frames|)
    ensures AllCompression(done + [r], |done| + 1) == RangeCompression(AllCompression(done, |done|), r, |r.frames|)
  {
    assert RangeAt(codec, file, offset).ranges == [r];
    BeforeTwice(done, r, LoadFrom(codec, file, NextHeader(r)));
    AllOfPrefix(done, r, |done|);
  }

  lemma BeforeNothing(l: Loading)
    ensures Before([], l) == l
  {
    if l.Loaded? { assert [] + l.ranges == l.ranges; }
  }

  lemma BeforeTwice(rs: seq<Range>, r: Range, l: Loading)
    ensures Before(rs, Before([r], l)) == Before(rs + [r], l)
  {
    if l.Loaded? { assert rs + ([r] + l.ranges) == rs + [r] + l.ranges; }
  }

  // ---- what is known of the loaded ranges ----

  /** The ranges come one after the other in the file. */
  ghost predicate InOrder(rs: seq<Range>) {
    forall i, j :: 0 <= i < j < |rs| ==> NextHeader(rs[i]) + HEADER_SIZE <= rs[j].at
  }

  lemma {:induction false} LoadedRanges(codec: Codec, file: seq<byte>, offset: nat)
    requires LoadFrom(codec, file, offset).Loaded?
    ensures var rs := LoadFrom(codec, file, offset).ranges;
            && (forall i :: 0 <= i < |rs| ==> WellRead(codec, file, rs[i]) && offset + HEADER_SIZE <= rs[i].at)
            && InOrder(rs)
    decreases Max(0, |file| - offset)
  {
    if offset + 4 < |file| - 1 {
      var r := RangeAt(codec, file, offset).ranges[0];
      RangeIsWellRead(codec, file, offset);
      LoadedRanges(codec, file, NextHeader(r));
      var rest := LoadFrom(codec, file, NextHeader(r)).ranges;
      assert RangeAt(codec, file, offset).ranges == [r];
      assert LoadFrom(codec, file, offset).ranges == [r] + rest;
    }
  }

  // ---- the segments of all ranges ----

  ghost predicate AllRecorded(codec: Codec, file: seq<byte>, rs: seq<Range>) {
    forall i {:trigger Recording(codec, file, rs[i])} :: 0 <= i < |rs| ==> Recording(codec, file, rs[i])
  }

  /** The streams of the ranges do not overlap in memory and come in ascending order. */
  ghost predicate Ascending(rs: seq<Range>) {
    forall i, j :: 0 <= i < j < |rs| ==> rs[i].start + FramesLength(rs[i].frames) <= rs[j].start
  }

  lemma {:induction false} PlacedIn(rs: seq<Range>, n: nat, i: nat, k: nat)
    requires i < n <= |rs| && k < |rs[i].frames|
    ensures Placed(rs[i], k) in AllSegments(rs, n)
  {
    if i < n - 1 {
      PlacedIn(rs, n - 1, i, k);
    } else {
      assert RangeSegments(rs[i], |rs[i].frames|)[k] == Placed(rs[i], k);
    }
  }

  lemma {:induction false} SegmentOf(rs: seq<Range>, n: nat, s: Segment) returns (i: nat, k: nat)
    requires n <= |rs| && s in AllSegments(rs, n)
    ensures i < n && k < |rs[i].frames| && s == Placed(rs[i], k)
  {
    var last := RangeSegments(rs[n - 1], |rs[n - 1].frames|);
    if s in last {
      i := n - 1;
      k :| 0 <= k < |last| && last[k] == s;
    } else {
      i, k := SegmentOf(rs, n - 1, s);
    }
  }

  /** Where a recorded frame lies in the file and in memory. */
  lemma {:induction false} PlacedBounds(codec: Codec, file: seq<byte>, r: Range, k: nat)
    requires Recording(codec, file, r) && k < |r.frames|
    ensures r.at <= Placed(r, k).mapped < |file| - 1 && Placed(r, k).mapped <= r.at + r.consumed
    ensures r.start <= Placed(r, k).start && Placed(r, k).End() <= r.start + FramesLength(r.frames)
  {
    StartsInside(codec, file, r, k);
    assert Whole(r.frames[k], r.data);
    forall j | 0 <= j < |r.frames| ensures r.frames[j].mappedLength >= 0 {
      assert Whole(r.frames[j], r.data);
    }
    TilesBounds(r.frames, 0, 0, r.consumed, k);
    TilesEnd(r.frames, 0, 0, r.consumed, k);
  }

  lemma {:induction false} RangeIsSorted(codec: Codec, file: seq<byte>, r: Range)
    requires Recording(codec, file, r)
    ensures Sorted(RangeSegments(r, |r.frames|), |file| - 1)
  {
    var segs := RangeSegments(r, |r.frames|);
    forall i, j | 0 <= i < j < |segs| ensures segs[i].End() <= segs[j].start && Segmented.Before(segs[i], segs[j]) {
      TilesOrder(r.frames, 0, 0, r.consumed, i, j);
      assert Whole(r.frames[i], r.data);
    }
    forall i | 0 <= i < |segs| ensures segs[i].mapped < |file| - 1 {
      PlacedBounds(codec, file, r, i);
    }
  }

  /** Every segment of `a` comes before every one of `b`. */
  ghost predicate AllBefore(a: seq<Segment>, b: seq<Segment>) {
    forall s, t :: s in a && t in b ==> s.End() <= t.start && Segmented.Before(s, t)
  }

  lemma {:induction false} SortedConcat(a: seq<Segment>, b: seq<Segment>, max: int)
    requires Sorted(a, max) && Sorted(b, max) && AllBefore(a, b)
    ensures Sorted(a + b, max)
  {
    var c := a + b;
    forall i, j | 0 <= i < j < |c| ensures c[i].End() <= c[j].start && Segmented.Before(c[i], c[j]) {
      if i < |a| <= j { assert c[i] in a && c[j] in b; }
    }
  }

  lemma {:induction false} PlacedInOrder(codec: Codec, file: seq<byte>, rs: seq<Range>, i: nat, k: nat, j: nat, l: nat)
    requires AllRecorded(codec, file, rs) && Ascending(rs) && InOrder(rs)
    requires i < j < |rs| && k < |rs[i].frames| && l < |rs[j].frames|
    ensures Placed(rs[i], k).End() <= Placed(rs[j], l).start && Segmented.Before(Placed(rs[i], k), Placed(rs[j], l))
  {
    assert Recording(codec, file, rs[i]) && Recording(codec, file, rs[j]);
    PlacedBounds(codec, file, rs[i], k);
    PlacedBounds(codec, file, rs[j], l);
  }

  lemma {:induction false} SegmentsInOrder(codec: Codec, file: seq<byte>, rs: seq<Range>, n: nat, s: Segment,
                                           t: Segment)
    requires AllRecorded(codec, file, rs) && Ascending(rs) && InOrder(rs) && 0 < n <= |rs|
    requires s in AllSegments(rs, n - 1) && t in RangeSegments(rs[n - 1], |rs[n - 1].frames|)
    ensures s.End() <= t.start && Segmented.Before(s, t)
  {
    var i, k := SegmentOf(rs, n - 1, s);
    var b := RangeSegments(rs[n - 1], |rs[n - 1].frames|);
    var l :| 0 <= l < |b| && b[l] == t;
    assert t == Placed(rs[n - 1], l);
    PlacedInOrder(codec, file, rs, i, k, n - 1, l);
  }

  lemma {:induction false} BothInOrder(codec: Codec, file: seq<byte>, rs: seq<Range>, n: nat, a: seq<Segment>,
                                       b: seq<Segment>)
    requires AllRecorded(codec, file, rs) && Ascending(rs) && InOrder(rs) && 0 < n <= |rs|
    requires a == AllSegments(rs, n - 1) && b == RangeSegments(rs[n - 1], |rs[n - 1].frames|)
    ensures AllBefore(a, b)
  {
    forall s, t | s in a && t in b ensures s.End() <= t.start && Segmented.Before(s, t) {
      SegmentsInOrder(codec, file, rs, n, s, t);
    }
  }

  lemma {:induction false} AllSorted(codec: Codec, file: seq<byte>, rs: seq<Range>, n: nat, segs: seq<Segment>)
    requires AllRecorded(codec, file, rs) && Ascending(rs) && InOrder(rs) && n <= |rs| && segs == AllSegments(rs, n)
    ensures Sorted(segs, |file| - 1)
  {
    if n > 0 {
      var a, b := AllSegments(rs, n - 1), RangeSegments(rs[n - 1], |rs[n - 1].frames|);
      AllSorted(codec, file, rs, n - 1, a);
      RangeIsSorted(codec, file, rs[n - 1]);
      BothInOrder(codec, file, rs, n, a, b);
      SortedConcat(a, b, |file| - 1);
    }
  }

  /** Recording a range changes only what is known of places in its data. */
  lemma {:induction false} KeptBefore(c: Compression, r: Range, n: nat, key: nat)
    requires n <= |r.frames| && key in c && key < r.at
    ensures key in RangeCompression(c, r, n) && RangeCompression(c, r, n)[key] == c[key]
  {
    if n > 0 { KeptBefore(c, r, n - 1, key); }
  }

  lemma {:induction false} KnownInRange(c: Compression, r: Range, n: nat, i: nat)
    requires Tiles(r.frames, 0, 0, r.consumed) && AllWhole(r.frames, r.data) && i < n <= |r.frames|
    ensures Knows(RangeCompression(c, r, n), r, i)
  {
    if i < n - 1 {
      KnownInRange(c, r, n - 1, i);
      TilesOrder(r.frames, 0, 0, r.consumed, i, n - 1);
      assert Whole(r.frames[i], r.data);
    }
  }

  lemma {:induction false} LiesBefore(codec: Codec, file: seq<byte>, rs: seq<Range>, i: nat, j: nat, k: nat)
    requires AllRecorded(codec, file, rs) && InOrder(rs) && i < j < |rs| && k < |rs[i].frames|
    ensures rs[i].at + rs[i].frames[k].mapped < rs[j].at
  {
    assert Recording(codec, file, rs[i]);
    PlacedBounds(codec, file, rs[i], k);
  }

  lemma {:induction false} AllKnown(codec: Codec, file: seq<byte>, rs: seq<Range>, n: nat, i: nat, k: nat)
    requires AllRecorded(codec, file, rs) && InOrder(rs) && i < n <= |rs| && k < |rs[i].frames|
    ensures Knows(AllCompression(rs, n), rs[i], k)
  {
    var c, r := AllCompression(rs, n - 1), rs[n - 1];
    if i < n - 1 {
      AllKnown(codec, file, rs, n - 1, i, k);
      LiesBefore(codec, file, rs, i, n - 1, k);
      StillKnown(c, rs[i], k, r);
    } else {
      assert Recording(codec, file, r);
      KnownInRange(c, r, |r.frames|, k);
    }
  }

  lemma {:induction false} StillKnown(c: Compression, q: Range, k: nat, r: Range)
    requires k < |q.frames| && Knows(c, q, k) && q.at + q.frames[k].mapped < r.at
    ensures Knows(RangeCompression(c, r, |r.frames|), q, k)
  {
    KeptBefore(c, r, |r.frames|, q.at + q.frames[k].mapped);
  }

  lemma {:induction false} AllIncluded(codec: Codec, file: seq<byte>, rs: seq<Range>, i: nat)
    requires AllRecorded(codec, file, rs) && InOrder(rs) && i < |rs|
    ensures Includes(AllSegments(rs, |rs|), AllCompression(rs, |rs|), rs[i])
  {
    forall k | 0 <= k < |rs[i].frames|
      ensures Placed(rs[i], k) in AllSegments(rs, |rs|) && Knows(AllCompression(rs, |rs|), rs[i], k)
    {
      PlacedIn(rs, |rs|, i, k);
      AllKnown(codec, file, rs, |rs|, i, k);
    }
  }

  lemma {:induction false} EverySegmentIsSound(codec: Codec, file: seq<byte>, rs: seq<Range>)
    requires AllRecorded(codec, file, rs) && InOrder(rs)
    ensures AllSound(codec, file, AllCompression(rs, |rs|), AllSegments(rs, |rs|))
  {
    var segs, c := AllSegments(rs, |rs|), AllCompression(rs, |rs|);
    forall s | s in segs ensures Sound(codec, file, c, s) {
      var i, k := SegmentOf(rs, |rs|, s);
      AllKnown(codec, file, rs, |rs|, i, k);
      PlacedDecodes(codec, file, rs[i], c, k);
    }
  }

  /** Where a frame gives nothing, the next one that gives something is found. */
  lemma {:induction false} AllEmptiesFound(codec: Codec, file: seq<byte>, rs: seq<Range>)
    requires AllRecorded(codec, file, rs) && InOrder(rs) && Sorted(AllSegments(rs, |rs|), |file| - 1)
    ensures EmptiesFound(AllSegments(rs, |rs|), |file| - 1)
  {
    var segs, max := AllSegments(rs, |rs|), |file| - 1;
    forall s | s in segs ensures EmptyFound(segs, max, s) {
      if s.length == 0 && s.mappedLength > 0 {
        var i, k := SegmentOf(rs, |rs|, s);
        assert Recording(codec, file, rs[i]);
        var j := NextGives(rs[i].frames, rs[i].consumed, k);
        PlacedIn(rs, |rs|, i, j);
        PlacedBounds(codec, file, rs[i], j);
        var at :| 0 <= at < |segs| && segs[at] == Placed(rs[i], j);
        SegmentAtIndex(segs, max, at, s.start);
      }
    }
  }

  lemma {:induction false} LoadedAreRecorded(codec: Codec, file: seq<byte>, rs: seq<Range>)
    requires forall i :: 0 <= i < |rs| ==> WellRead(codec, file, rs[i]) && AllWhole(rs[i].frames, rs[i].data)
    ensures AllRecorded(codec, file, rs)
  {
    forall i | 0 <= i < |rs| ensures Recording(codec, file, rs[i]) {
      LengthsMatch(codec, rs[i].data, rs[i].frames);
      StreamLength(codec, rs[i].data, rs[i].frames);
    }
  }

  lemma {:induction false} RecordedReads(codec: Codec, file: seq<byte>, rs: seq<Range>, i: nat, r: Range,
                                         segs: seq<Segment>, c: Compression, stream: seq<byte>,
                                         a: nat, o: nat, n: nat)
    requires AllRecorded(codec, file, rs) && InOrder(rs) && i < |rs| && r == rs[i]
    requires segs == AllSegments(rs, |rs|) && c == AllCompression(rs, |rs|) && Sorted(segs, |file| - 1)
    requires stream == Stream(codec, r.data, r.frames) && n > 0 && o + n <= |stream|
    requires a == r.start + o
    ensures |stream| == FramesLength(r.frames)
    ensures AllFindable(segs, |file| - 1, a, n)
    ensures Shown(codec, file, c, segs, a, n) == stream[o..o + n]
  {
    AllIncluded(codec, file, rs, i);
    assert Recording(codec, file, rs[i]);
    RangeShowsStream(codec, file, r, segs, c, a, o, n);
  }

  /** A file that loads, with whole frames and ascending ranges: its segments make a valid
      layer. */
  lemma {:induction false} FileIsValid(codec: Codec, file: seq<byte>, rs: seq<Range>, segs: seq<Segment>,
                                       c: Compression)
    requires LoadFrom(codec, file, 0) == Loaded(rs) && Ascending(rs)
    requires segs == AllSegments(rs, |rs|) && c == AllCompression(rs, |rs|)
    requires forall j :: 0 <= j < |rs| ==> AllWhole(rs[j].frames, rs[j].data)
    ensures Sorted(segs, |file| - 1) && AllSound(codec, file, c, segs) && EmptiesFound(segs, |file| - 1)
    ensures AllRecorded(codec, file, rs) && InOrder(rs)
    ensures forall j :: 0 <= j < |rs| ==> FramesLength(rs[j].frames) > rs[j].expected
  {
    LoadedRanges(codec, file, 0);
    LoadedAreRecorded(codec, file, rs);
    AllSorted(codec, file, rs, |rs|, segs);
    EverySegmentIsSound(codec, file, rs);
    AllEmptiesFound(codec, file, rs);
  }

  /** In such a file every range gives more bytes than its header says, and a strict read of any
      part of the stream of any range succeeds and is that part of the stream. */
  lemma {:induction false} FileReads(codec: Codec, file: seq<byte>, rs: seq<Range>, segs: seq<Segment>, c: Compression,
                                     i: nat, r: Range, stream: seq<byte>, a: nat, o: nat, n: nat)
    requires LoadFrom(codec, file, 0) == Loaded(rs) && Ascending(rs)
    requires segs == AllSegments(rs, |rs|) && c == AllCompression(rs, |rs|)
    requires forall j :: 0 <= j < |rs| ==> AllWhole(rs[j].frames, rs[j].data)
    requires i < |rs| && r == rs[i] && stream == Stream(codec, r.data, r.frames) && n > 0 && o + n <= |stream|
    requires a == r.start + o
    ensures |stream| > r.expected
    ensures AllFindable(segs, |file| - 1, a, n)
    ensures Shown(codec, file, c, segs, a, n) == stream[o..o + n]
  {
    FileIsValid(codec, file, rs, segs, c);
    RecordedReads(codec, file, rs, i, r, segs, c, stream, a, o, n);
  }
}
