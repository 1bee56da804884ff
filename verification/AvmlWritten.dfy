/** AVML files as they are written: headers, framed Snappy streams and trailers. A file whose
    ranges compress well enough loads and reads back; a range without compression never loads. */
module AvmlWritten {
  import opened Avml
  import opened AvmlFile
  import opened AvmlLayer
  import opened AvmlRange
  import opened Bits
  import opened Memory
  import opened PageTables
  import opened Segmented
  import opened SnappyFormat

  /** A memory range in a file: its bounds, the chunks of its stream, and the bytes the loader
      skips, in the header and after the stream. */
  datatype WrittenRange = WrittenRange(start: nat, end: nat, padding: seq<byte>, chunks: seq<Chunk>, trailer: seq<byte>)

  /** The bounds fit their fields, and the chunks are ones the format allows. */
  predicate Storable(codec: Codec, w: WrittenRange) {
    && w.start < WordBound(8) && w.end < WordBound(8) && |w.padding| == 8 && |w.trailer| == 8
    && AllProper(codec, w.chunks)
  }

  predicate AllStorable(codec: Codec, ws: seq<WrittenRange>) {
    forall i :: 0 <= i < |ws| ==> Storable(codec, ws[i])
  }

  /** The encoded stream is not longer than the range, and gives more bytes than the range has,
      but not without its last chunk. */
  predicate Compresses(codec: Codec, w: WrittenRange)
    requires Storable(codec, w)
  {
    && |EncodedAll(codec, w.chunks)| <= w.end - w.start < |ContentsAll(codec, w.chunks)|
    && w.chunks != [] && |ContentsAll(codec, w.chunks[..|w.chunks| - 1])| <= w.end - w.start
  }

  function WordBound(n: nat): nat {
    if n == 0 then 1 else 256 * WordBound(n - 1)
  }

  /** `x` in `n` bytes, the low one first. */
  function Word(x: nat, n: nat): (s: seq<byte>)
    ensures |s| == n
  {
    if n == 0 then [] else [x % 256] + Word(x / 256, n - 1)
  }

  lemma {:induction false} WordReads(x: nat, n: nat)
    requires x < WordBound(n)
    ensures LittleEndian(Word(x, n)) == x
    decreases n
  {
    if n > 0 {
      WordReads(x / 256, n - 1);
      assert Word(x, n)[1..] == Word(x / 256, n - 1);
    }
  }

  /** The bytes of a text in ASCII. */
  function Ascii(s: string): seq<byte>
    requires forall i :: 0 <= i < |s| ==> s[i] < 128 as char
  {
    seq(|s|, i requires 0 <= i < |s| => s[i] as int)
  }

  /** A range starts with the name of the format, and a stream with the name of its. */
  lemma {:induction false} FormatNames()
    ensures Word(MAGIC, 4) == Ascii("AVML") && STREAM_IDENTIFIER == Ascii("sNaPpY")
  {
    var n := 4;
    assert Word(0x4C, n - 3) == [0x4C] && Word(0x4C4D, n - 2) == [0x4D, 0x4C];
    assert Word(0x4C4D56, n - 1) == [0x56, 0x4D, 0x4C];
  }

  function HeaderOf(w: WrittenRange): (s: seq<byte>)
    requires |w.padding| == 8
    ensures |s| == HEADER_SIZE
  {
    Word(MAGIC, 4) + Word(2, 4) + Word(w.start, 8) + Word(w.end, 8) + w.padding
  }

  function RangeBytes(codec: Codec, w: WrittenRange): seq<byte>
    requires Storable(codec, w)
  {
    HeaderOf(w) + EncodedAll(codec, w.chunks) + w.trailer
  }

  /** The ranges one after the other, and some bytes behind them. */
  function FileOf(codec: Codec, ws: seq<WrittenRange>, tail: seq<byte>): seq<byte>
    requires AllStorable(codec, ws)
  {
    if ws == [] then tail else RangeBytes(codec, ws[0]) + FileOf(codec, ws[1..], tail)
  }

  // ---- one range in a file ----

  /** The range lies in the file at `offset`. */
  ghost predicate RangeLiesAt(codec: Codec, file: seq<byte>, offset: nat, w: WrittenRange)
    requires Storable(codec, w)
  {
    offset + |RangeBytes(codec, w)| <= |file| && file[offset..offset + |RangeBytes(codec, w)|] == RangeBytes(codec, w)
  }

  lemma {:induction false} Constants()
    ensures WordBound(4) == 0x1_0000_0000 && MAGIC < WordBound(4) && 2 < WordBound(4)
  {
    var four := 4;
    assert WordBound(four) == 256 * WordBound(four - 1);
    assert WordBound(four - 1) == 256 * WordBound(four - 2);
  }

  /** The part of the file from `at` on that holds `part`. */
  ghost predicate HeldAt(file: seq<byte>, at: nat, part: seq<byte>) {
    at + |part| <= |file| && file[at..at + |part|] == part
  }

  lemma {:induction false} HeldParts(file: seq<byte>, at: nat, a: seq<byte>, b: seq<byte>, next: nat)
    requires HeldAt(file, at, a + b) && next == at + |a|
    ensures HeldAt(file, at, a) && HeldAt(file, next, b)
  {
    SubSlice(file, at, at + |a + b|, 0, |a|);
    SubSlice(file, at, at + |a + b|, |a|, |a + b|);
    assert (a + b)[..|a|] == a && (a + b)[|a|..] == b;
  }

  lemma {:induction false} HeaderReads(file: seq<byte>, offset: nat, w: WrittenRange)
    requires |w.padding| == 8 && w.start < WordBound(8) && w.end < WordBound(8)
    requires HeldAt(file, offset, HeaderOf(w))
    ensures HeaderAt(file, offset) == Header(MAGIC, 2, w.start, w.end)
  {
    var m, v, s, e := Word(MAGIC, 4), Word(2, 4), Word(w.start, 8), Word(w.end, 8);
    HeldParts(file, offset, m + v + s + e, w.padding, offset + 24);
    HeldParts(file, offset, m + v + s, e, offset + 16);
    HeldParts(file, offset, m + v, s, offset + 8);
    HeldParts(file, offset, m, v, offset + 4);
    Constants();
    WordReads(MAGIC, 4);
    WordReads(2, 4);
    WordReads(w.start, 8);
    WordReads(w.end, 8);
  }

  /** Header, stream and trailer of a range in a file. */
  lemma {:induction false} RangeParts(codec: Codec, file: seq<byte>, offset: nat, w: WrittenRange, at: nat)
    requires Storable(codec, w) && RangeLiesAt(codec, file, offset, w) && at == offset + HEADER_SIZE
    ensures HeldAt(file, at, EncodedAll(codec, w.chunks)) && at + |EncodedAll(codec, w.chunks)| + 8 <= |file|
    ensures HeaderAt(file, offset) == Header(MAGIC, 2, w.start, w.end)
    ensures RangeAt(codec, file, offset) == RangeWith(codec, file, Header(MAGIC, 2, w.start, w.end), at)
  {
    var e := EncodedAll(codec, w.chunks);
    HeldParts(file, offset, HeaderOf(w) + e, w.trailer, at + |e|);
    HeldParts(file, offset, HeaderOf(w), e, at);
    HeaderReads(file, offset, w);
  }

  // ---- ranges that compress ----

  /** A range read from the data that was written for it. */
  ghost predicate Holding(codec: Codec, r: Range, w: WrittenRange)
    requires Storable(codec, w)
  {
    && r.start == w.start && r.expected == w.end - w.start && EncodedAll(codec, w.chunks) <= r.data
    && r.consumed == |EncodedAll(codec, w.chunks)|
    && Stream(codec, r.data, r.frames) == ContentsAll(codec, w.chunks)
  }

  /** Reading stops behind the last chunk. */
  lemma {:induction false} AllChunksRead(codec: Codec, data: seq<byte>, w: WrittenRange)
    requires Storable(codec, w) && Compresses(codec, w) && EncodedAll(codec, w.chunks) <= data
    ensures ReadsBack(codec, data, 0, w.chunks, w.end - w.start, 0, |w.chunks|)
  {
    assert data[0..] == data;
    var n := WrittenIsRead(codec, data, 0, w.chunks, w.end - w.start, 0);
    if n < |w.chunks| {
      var front := w.chunks[..|w.chunks| - 1];
      assert front[..n] == w.chunks[..n];
      ContentsPrefix(codec, front, n);
      assert false;
    }
  }

  lemma {:induction false} DataTaken(file: seq<byte>, at: nat, e: seq<byte>, length: nat) returns (data: seq<byte>)
    requires HeldAt(file, at, e) && at + |e| + 8 <= |file| && 0 < |e| <= length
    ensures ReadChunk(file, at, Min(length, |file| - 1 - at)) == Ok(data) && e <= data
  {
    var n := Min(length, |file| - 1 - at);
    data := file[at..at + n];
    SubSlice(file, at, at + n, 0, |e|);
    assert data[..|e|] == file[at..at + |e|];
  }

  lemma {:induction false} EncodedIsNotEmpty(codec: Codec, cs: seq<Chunk>)
    requires AllProper(codec, cs) && cs != []
    ensures |EncodedAll(codec, cs)| > 4
  {
  }

  lemma {:induction false} WrittenDataLoads(codec: Codec, file: seq<byte>, at: nat, w: WrittenRange, h: Header,
                                            data: seq<byte>)
    returns (r: Range)
    requires Storable(codec, w) && Compresses(codec, w) && h == Header(MAGIC, 2, w.start, w.end)
    requires ReadChunk(file, at, Min(w.end - w.start, |file| - 1 - at)) == Ok(data)
    requires EncodedAll(codec, w.chunks) <= data
    ensures RangeWith(codec, file, h, at) == Loaded([r]) && Holding(codec, r, w) && r.at == at
  {
    AllChunksRead(codec, data, w);
    var o := ReadStream(codec, data, w.end - w.start);
    r := Range(w.start, at, data, w.end - w.start, o.frames, o.consumed);
    assert Holding(codec, r, w) by { assert w.chunks[..|w.chunks|] == w.chunks; }
    FramesLoad(codec, file, h, at, data, o);
  }

  lemma {:induction false} FramesLoad(codec: Codec, file: seq<byte>, h: Header, at: nat, data: seq<byte>, o: Outcome)
    requires ReadChunk(file, at, Min(h.end - h.start, |file| - 1 - at)) == Ok(data)
    requires o == ReadStream(codec, data, h.end - h.start) && o.Frames?
    ensures RangeWith(codec, file, h, at) == Loaded([Range(h.start, at, data, h.end - h.start, o.frames, o.consumed)])
  {
  }

  /** A range that compresses is loaded, and the next header is looked for behind its trailer. */
  lemma {:induction false} WrittenRangeLoads(codec: Codec, file: seq<byte>, offset: nat, w: WrittenRange)
    returns (r: Range)
    requires Storable(codec, w) && Compresses(codec, w) && RangeLiesAt(codec, file, offset, w)
    ensures RangeAt(codec, file, offset) == Loaded([r]) && Holding(codec, r, w)
    ensures NextHeader(r) == offset + |RangeBytes(codec, w)|
  {
    var at, e := offset + HEADER_SIZE, EncodedAll(codec, w.chunks);
    RangeParts(codec, file, offset, w, at);
    EncodedIsNotEmpty(codec, w.chunks);
    var data := DataTaken(file, at, e, w.end - w.start);
    r := WrittenDataLoads(codec, file, at, w, Header(MAGIC, 2, w.start, w.end), data);
  }

  ghost predicate AllHolding(codec: Codec, rs: seq<Range>, ws: seq<WrittenRange>)
    requires AllStorable(codec, ws)
  {
    |rs| == |ws| && forall i :: 0 <= i < |rs| ==> Holding(codec, rs[i], ws[i])
  }

  predicate AllCompress(codec: Codec, ws: seq<WrittenRange>)
    requires AllStorable(codec, ws)
  {
    forall i :: 0 <= i < |ws| ==> Compresses(codec, ws[i])
  }

  /** A written file whose ranges all compress is loaded, range by range. Up to five bytes behind the
      ranges are not looked at. */
  lemma {:induction false} WrittenFileLoads(codec: Codec, file: seq<byte>, offset: nat, ws: seq<WrittenRange>,
                                            tail: seq<byte>)
    requires AllStorable(codec, ws) && AllCompress(codec, ws)
    requires offset <= |file| && file[offset..] == FileOf(codec, ws, tail) && |tail| <= 5
    ensures LoadFrom(codec, file, offset).Loaded? && AllHolding(codec, LoadFrom(codec, file, offset).ranges, ws)
    decreases |ws|
  {
    if ws != [] {
      var w, rest := ws[0], ws[1..];
      FirstRange(codec, file, offset, ws, tail);
      var r := WrittenRangeLoads(codec, file, offset, w);
      WrittenFileLoads(codec, file, NextHeader(r), rest, tail);
      var rs := LoadFrom(codec, file, NextHeader(r)).ranges;
      assert LoadFrom(codec, file, offset).ranges == [r] + rs;
    }
  }

  /** No range starts with these bytes: they are too few for a header, or its magic or version is
      another. */
  predicate NoHeader(s: seq<byte>) {
    |s| < HEADER_SIZE || s[..4] != Word(MAGIC, 4) || s[4..8] != Word(2, 4)
  }

  /** More than five bytes behind the ranges that are no header make the whole file unreadable. */
  lemma {:induction false} TrailingBytesFail(codec: Codec, file: seq<byte>, offset: nat, ws: seq<WrittenRange>,
                                             tail: seq<byte>)
    requires AllStorable(codec, ws) && AllCompress(codec, ws)
    requires offset <= |file| && file[offset..] == FileOf(codec, ws, tail) && |tail| > 5 && NoHeader(tail)
    ensures LoadFrom(codec, file, offset).Failed?
    decreases |ws|
  {
    if ws != [] {
      FirstRange(codec, file, offset, ws, tail);
      var r := WrittenRangeLoads(codec, file, offset, ws[0]);
      TrailingBytesFail(codec, file, NextHeader(r), ws[1..], tail);
    } else if |tail| >= HEADER_SIZE {
      NotAHeader(file, offset, tail);
    }
  }

  lemma {:induction false} NotAHeader(file: seq<byte>, offset: nat, tail: seq<byte>)
    requires offset <= |file| && file[offset..] == tail && |tail| >= HEADER_SIZE && NoHeader(tail)
    ensures HeaderAt(file, offset).magic != MAGIC || HeaderAt(file, offset).version != 2
  {
    var m, v := tail[..4], tail[4..8];
    assert m == file[offset..offset + 4] && v == file[offset + 4..offset + 8];
    if LittleEndian(m) == MAGIC { WordOf(m, MAGIC); }
    if LittleEndian(v) == 2 { WordOf(v, 2); }
  }

  /** Only the bytes of a number in order give the number. */
  lemma {:induction false} WordOf(s: seq<byte>, x: nat)
    requires LittleEndian(s) == x
    ensures s == Word(x, |s|)
  {
    if s != [] {
      WordOf(s[1..], x / 256);
      assert s == [s[0]] + s[1..];
    }
  }

  lemma {:induction false} FirstRange(codec: Codec, file: seq<byte>, offset: nat, ws: seq<WrittenRange>,
                                      tail: seq<byte>)
    requires AllStorable(codec, ws) && ws != [] && offset <= |file| && file[offset..] == FileOf(codec, ws, tail)
    ensures RangeLiesAt(codec, file, offset, ws[0])
    ensures file[offset + |RangeBytes(codec, ws[0])|..] == FileOf(codec, ws[1..], tail)
  {
    var b, rest := RangeBytes(codec, ws[0]), FileOf(codec, ws[1..], tail);
    var all := file[offset..];
    PrefixParts(b, rest, all);
    assert all[..|b|] == file[offset..offset + |b|];
    assert all[|b|..] == file[offset + |b|..];
    assert |all[|b|..]| == |rest|;
  }

  // ---- reading what was written ----

  /** The ranges come in ascending order and do not overlap. */
  ghost predicate AscendingRanges(codec: Codec, ws: seq<WrittenRange>)
    requires AllStorable(codec, ws)
  {
    forall i, j :: 0 <= i < j < |ws| ==> ws[i].start + |ContentsAll(codec, ws[i].chunks)| <= ws[j].start
  }

  lemma {:induction false} HoldingIsWhole(codec: Codec, file: seq<byte>, r: Range, w: WrittenRange)
    requires Storable(codec, w) && Compresses(codec, w) && Holding(codec, r, w) && GivesNothing(codec, [])
    requires WellRead(codec, file, r)
    ensures AllWhole(r.frames, r.data) && FramesLength(r.frames) == |ContentsAll(codec, w.chunks)|
  {
    assert r.data[0..] == r.data;
    WrittenIsWhole(codec, r.data, 0, w.chunks, r.expected, 0);
    LengthsMatch(codec, r.data, r.frames);
    StreamLength(codec, r.data, r.frames);
  }

  lemma {:induction false} AllHoldingAreWhole(codec: Codec, file: seq<byte>, rs: seq<Range>, ws: seq<WrittenRange>)
    requires AllStorable(codec, ws) && AllCompress(codec, ws) && AllHolding(codec, rs, ws) && GivesNothing(codec, [])
    requires AscendingRanges(codec, ws) && LoadFrom(codec, file, 0) == Loaded(rs)
    ensures Ascending(rs) && forall j :: 0 <= j < |rs| ==> AllWhole(rs[j].frames, rs[j].data)
  {
    LoadedRanges(codec, file, 0);
    forall j | 0 <= j < |rs|
      ensures AllWhole(rs[j].frames, rs[j].data) && FramesLength(rs[j].frames) == |ContentsAll(codec, ws[j].chunks)|
    {
      HoldingIsWhole(codec, file, rs[j], ws[j]);
    }
  }

  lemma {:induction false} HoldingReads(codec: Codec, file: seq<byte>, rs: seq<Range>, segs: seq<Segment>,
                                        c: Compression, ws: seq<WrittenRange>, i: nat, r: Range, w: WrittenRange,
                                        written: seq<byte>, a: nat, o: nat, n: nat)
    requires AllStorable(codec, ws) && AllCompress(codec, ws) && AllHolding(codec, rs, ws) && GivesNothing(codec, [])
    requires AscendingRanges(codec, ws) && LoadFrom(codec, file, 0) == Loaded(rs)
    requires segs == AllSegments(rs, |rs|) && c == AllCompression(rs, |rs|)
    requires i < |ws| && r == rs[i] && w == ws[i] && written == ContentsAll(codec, w.chunks)
    requires n > 0 && o + n <= |written| && a == w.start + o
    ensures Sorted(segs, |file| - 1) && AllSound(codec, file, c, segs) && EmptiesFound(segs, |file| - 1)
    ensures AllFindable(segs, |file| - 1, a, n)
    ensures Shown(codec, file, c, segs, a, n) == written[o..o + n]
  {
    AllHoldingAreWhole(codec, file, rs, ws);
    FileIsValid(codec, file, rs, segs, c);
    FileReads(codec, file, rs, segs, c, i, r, written, a, o, n);
  }

  /** Written, loaded and read: a file whose ranges compress and ascend is loaded, and a strict
      read of any part of what was written for a range succeeds and is that part. */
  lemma {:induction false} WrittenFileReads(codec: Codec, file: seq<byte>, ws: seq<WrittenRange>, tail: seq<byte>,
                                            i: nat, w: WrittenRange, written: seq<byte>, a: nat, o: nat, n: nat)
    returns (segs: seq<Segment>, c: Compression)
    requires AllStorable(codec, ws) && AllCompress(codec, ws) && AscendingRanges(codec, ws) && GivesNothing(codec, [])
    requires file == FileOf(codec, ws, tail) && |tail| <= 5
    requires i < |ws| && w == ws[i] && written == ContentsAll(codec, w.chunks)
    requires n > 0 && o + n <= |written| && a == w.start + o
    ensures ResultOf(LoadFrom(codec, file, 0)) == Segments(segs, c)
    ensures Sorted(segs, |file| - 1) && AllSound(codec, file, c, segs) && EmptiesFound(segs, |file| - 1)
    ensures AllFindable(segs, |file| - 1, a, n)
    ensures Shown(codec, file, c, segs, a, n) == written[o..o + n]
  {
    assert file[0..] == file;
    WrittenFileLoads(codec, file, 0, ws, tail);
    var rs := LoadFrom(codec, file, 0).ranges;
    segs, c := AllSegments(rs, |rs|), AllCompression(rs, |rs|);
    HoldingReads(codec, file, rs, segs, c, ws, i, rs[i], w, written, a, o, n);
  }

  // ---- ranges without compression ----

  predicate NoChunkCompressed(cs: seq<Chunk>) {
    forall i :: 0 <= i < |cs| ==> !cs[i].Compressed?
  }

  /** A stream cut off anywhere still has no compressed frame if none was written. */
  lemma {:induction false} CutIsPlain(codec: Codec, data: seq<byte>, offset: nat, cs: seq<Chunk>)
    requires AllProper(codec, cs) && NoChunkCompressed(cs)
    requires offset <= |data| && data[offset..] <= EncodedAll(codec, cs)
    ensures NoneCompressed(data, offset)
    decreases |cs|
  {
    if offset + 4 < |data| {
      CutHeader(codec, data, offset, cs);
      var c, next := cs[0], offset + |Encoded(cs[0])|;
      PlainFrame(codec, data, offset, c, next);
      if next <= |data| {
        CutRest(codec, data, offset, cs, next);
        CutIsPlain(codec, data, next, cs[1..]);
      }
    }
  }

  lemma {:induction false} PlainFrame(codec: Codec, data: seq<byte>, offset: nat, c: Chunk, next: nat)
    requires Proper(codec, c) && !c.Compressed? && offset + 4 < |data|
    requires FrameType(data, offset) == Kind(c) && NextFrame(data, offset) == next
    ensures NoneCompressed(data, offset) == NoneCompressed(data, next)
  {
    assert Kind(c) != 0;
  }

  lemma {:induction false} DropPrefix(s: seq<byte>, t: seq<byte>, n: nat)
    requires s <= t && n <= |s|
    ensures s[n..] <= t[n..]
  {
    assert t[n..][..|s| - n] == t[n..|s|] == s[n..];
  }

  lemma {:induction false} CutHeader(codec: Codec, data: seq<byte>, offset: nat, cs: seq<Chunk>)
    requires AllProper(codec, cs) && offset + 4 < |data| && data[offset..] <= EncodedAll(codec, cs)
    ensures cs != [] && FrameType(data, offset) == Kind(cs[0]) && NextFrame(data, offset) == offset + |Encoded(cs[0])|
  {
    var tail, e, rest := data[offset..], Encoded(cs[0]), EncodedAll(codec, cs[1..]);
    assert tail[..4] == (e + rest)[..4] == e[..4];
    assert tail[0] == data[offset] && tail[0] == e[0];
    assert data[offset..|data|] == tail;
    SubSlice(data, offset, |data|, 1, 4);
    assert tail[1..4] == tail[..4][1..4] == e[1..4];
    ThreeBytes(e[1..4], |Body(cs[0])|);
  }

  lemma {:induction false} CutRest(codec: Codec, data: seq<byte>, offset: nat, cs: seq<Chunk>, next: nat)
    requires AllProper(codec, cs) && cs != [] && next == offset + |Encoded(cs[0])| <= |data|
    requires data[offset..] <= EncodedAll(codec, cs)
    ensures data[next..] <= EncodedAll(codec, cs[1..])
  {
    var tail, e, rest := data[offset..], Encoded(cs[0]), EncodedAll(codec, cs[1..]);
    assert tail[|e|..] == data[next..];
    assert (e + rest)[|e|..] == rest;
    DropPrefix(tail, e + rest, |e|);
  }

  lemma {:induction false} DataCut(file: seq<byte>, at: nat, e: seq<byte>, length: nat) returns (data: seq<byte>)
    requires HeldAt(file, at, e) && at + |e| + 8 <= |file| && 0 < length <= |e|
    ensures ReadChunk(file, at, Min(length, |file| - 1 - at)) == Ok(data) && data <= e && |data| == length
  {
    data := file[at..at + length];
    SubSlice(file, at, at + |e|, 0, length);
    assert e[..length] == data;
  }

  lemma {:induction false} PlainIsLonger(codec: Codec, cs: seq<Chunk>)
    requires AllProper(codec, cs) && NoChunkCompressed(cs)
    ensures |ContentsAll(codec, cs)| <= |EncodedAll(codec, cs)|
  {
    if cs != [] { PlainIsLonger(codec, cs[1..]); }
  }

  /** A range without compressed chunks is never loaded, whatever else the file holds: its encoded
      stream is longer than the range, and the loader cuts it. */
  lemma {:induction false} PlainRangeNeverLoads(codec: Codec, file: seq<byte>, offset: nat, w: WrittenRange)
    requires Storable(codec, w) && NoChunkCompressed(w.chunks) && RangeLiesAt(codec, file, offset, w)
    requires w.start <= w.end < w.start + |ContentsAll(codec, w.chunks)|
    ensures !RangeAt(codec, file, offset).Loaded? && !LoadFrom(codec, file, offset).Loaded?
    ensures OnlyData(w.chunks[1..]) && w.chunks[0] == Identifier && w.end - w.start >= 10 ==>
              RangeAt(codec, file, offset).Endless? && LoadFrom(codec, file, offset).Endless?
  {
    var at, e, cs := offset + HEADER_SIZE, EncodedAll(codec, w.chunks), w.chunks;
    RangeParts(codec, file, offset, w, at);
    PlainIsLonger(codec, cs);
    if w.start == w.end {
      assert !RangeAt(codec, file, offset).Loaded?;
      return;
    }
    var data := DataCut(file, at, e, w.end - w.start);
    assert data[0..] == data;
    CutIsPlain(codec, data, 0, cs);
    PlainRangeIsNotLoaded(codec, file, HeaderAt(file, offset), at, data);
    if OnlyData(cs[1..]) && cs[0] == Identifier && w.end - w.start >= 10 {
      CutIsClean(codec, data, cs);
    }
  }

  /** Uncompressed data and chunks a reader skips. */
  predicate OnlyData(cs: seq<Chunk>) {
    forall i :: 0 <= i < |cs| ==> cs[i].Uncompressed? || cs[i].Skippable?
  }

  /** Frames without an identifier are good wherever the stream is cut. */
  lemma {:induction false} DataIsClean(codec: Codec, data: seq<byte>, offset: nat, cs: seq<Chunk>)
    requires AllProper(codec, cs) && OnlyData(cs) && offset <= |data| && data[offset..] <= EncodedAll(codec, cs)
    ensures SupplyFrom(codec, data, offset).clean
    decreases |cs|
  {
    if offset + 4 < |data| {
      CutHeader(codec, data, offset, cs);
      var c, next := cs[0], offset + |Encoded(cs[0])|;
      DataFrame(codec, data, offset, c, next);
      if next <= |data| {
        CutRest(codec, data, offset, cs, next);
        DataIsClean(codec, data, next, cs[1..]);
      }
    }
  }

  lemma {:induction false} DataFrame(codec: Codec, data: seq<byte>, offset: nat, c: Chunk, next: nat)
    requires Proper(codec, c) && (c.Uncompressed? || c.Skippable?) && offset + 4 < |data|
    requires FrameType(data, offset) == Kind(c) && NextFrame(data, offset) == next
    ensures SupplyFrom(codec, data, offset).clean == SupplyFrom(codec, data, next).clean
  {
    assert Payload(codec, data, offset).Ok?;
  }

  lemma {:induction false} CutIsClean(codec: Codec, data: seq<byte>, cs: seq<Chunk>)
    requires AllProper(codec, cs) && cs != [] && cs[0] == Identifier && OnlyData(cs[1..])
    requires |data| >= 10 && data <= EncodedAll(codec, cs)
    ensures SupplyFrom(codec, data, 0).clean
  {
    assert data[0..] == data;
    IdentifierAt(codec, data, cs);
    CutRest(codec, data, 0, cs, 10);
    DataIsClean(codec, data, 10, cs[1..]);
  }

  lemma {:induction false} IdentifierAt(codec: Codec, data: seq<byte>, cs: seq<Chunk>)
    requires AllProper(codec, cs) && cs != [] && cs[0] == Identifier
    requires |data| >= 10 && data <= EncodedAll(codec, cs)
    ensures SupplyFrom(codec, data, 0).clean == SupplyFrom(codec, data, 10).clean
  {
    var e := Encoded(Identifier);
    assert data[0..10] == EncodedAll(codec, cs)[..10] == e;
    ChunkRead(codec, data, 0, Identifier);
  }

  lemma {:induction false} PlainChunks(codec: Codec, memory: seq<byte>, checksum: seq<byte>)
    requires |memory| < 0xff_fffc && |checksum| == 4
    ensures var cs := [Identifier, Uncompressed(checksum, memory)];
            && AllProper(codec, cs) && ContentsAll(codec, cs) == memory
            && NoChunkCompressed(cs) && OnlyData(cs[1..]) && cs[0] == Identifier
  {
    var c := Uncompressed(checksum, memory);
    var cs := [Identifier, c];
    assert cs[1..] == [c] && [c][1..] == [];
    assert ContentsAll(codec, [c]) == memory + ContentsAll(codec, []) == memory;
    assert ContentsAll(codec, cs) == Contents(codec, Identifier) + ContentsAll(codec, cs[1..]);
  }

  /** Every range of more than ten bytes can be stored so: a file that a writer makes of memory
      without compressing it keeps the loader busy for good. */
  lemma {:induction false} PlainFileHangs(codec: Codec, memory: seq<byte>, start: nat, w: WrittenRange)
    requires 10 < |memory| < 0xff_fffc && start + |memory| <= WordBound(8)
    requires w.start == start && w.end == start + |memory| - 1 && w.padding == w.trailer == Zeros(8)
    requires w.chunks == [Identifier, Uncompressed(Zeros(4), memory)]
    ensures Storable(codec, w) && ContentsAll(codec, w.chunks) == memory
    ensures LoadFrom(codec, FileOf(codec, [w], []), 0) == Endless
  {
    PlainChunks(codec, memory, Zeros(4));
    var file := FileOf(codec, [w], []);
    assert file[0..|file|] == file && file == RangeBytes(codec, w) by {
      assert FileOf(codec, [], []) == [] && [w][1..] == [];
    }
    PlainRangeNeverLoads(codec, file, 0, w);
  }
}
