/** Writing the Snappy framing format (section 4): the stream identifier, compressed and
    uncompressed data chunks with their checksums, and skippable chunks. What is written,
    the reader of `Avml` reads back. */
module SnappyFormat {
  import opened Avml
  import opened Bits
  import opened Memory
  import opened PageTables

  datatype Chunk =
    | Identifier
    | Compressed(checksum: seq<byte>, payload: seq<byte>)
    | Uncompressed(checksum: seq<byte>, payload: seq<byte>)
    | Skippable(kind: byte, body: seq<byte>)

  function Kind(c: Chunk): byte {
    match c
    case Identifier => 0xFF
    case Compressed(_, _) => 0x00
    case Uncompressed(_, _) => 0x01
    case Skippable(kind, _) => kind
  }

  function Body(c: Chunk): seq<byte> {
    match c
    case Identifier => STREAM_IDENTIFIER
    case Compressed(checksum, payload) => checksum + payload
    case Uncompressed(checksum, payload) => checksum + payload
    case Skippable(_, body) => body
  }

  /** A chunk the format allows, with data that decompresses and a body of at least one byte:
      the reader does not look at a chunk whose header ends the data. */
  predicate Proper(codec: Codec, c: Chunk) {
    && 0 < |Body(c)| < 0x100_0000
    && (c.Compressed? ==> |c.checksum| == 4 && codec(c.payload).Ok?)
    && (c.Uncompressed? ==> |c.checksum| == 4)
    && (c.Skippable? ==> 0x80 <= c.kind < 0xFF)
  }

  /** The bytes a chunk stands for. */
  function Contents(codec: Codec, c: Chunk): seq<byte> {
    match c
    case Compressed(_, payload) => if codec(payload).Ok? then codec(payload).value else []
    case Uncompressed(_, payload) => payload
    case _ => []
  }

  function Encoded(c: Chunk): seq<byte>
    requires |Body(c)| < 0x100_0000
  {
    Framed(Kind(c), Body(c))
  }

  /** A chunk of any type: the type, the size of the body in three bytes, and the body. */
  function Framed(kind: byte, body: seq<byte>): seq<byte>
    requires |body| < 0x100_0000
  {
    var n := |body|;
    [kind, n % 0x100, n / 0x100 % 0x100, n / 0x1_0000] + body
  }

  predicate AllProper(codec: Codec, cs: seq<Chunk>) {
    forall i :: 0 <= i < |cs| ==> Proper(codec, cs[i])
  }

  function EncodedAll(codec: Codec, cs: seq<Chunk>): seq<byte>
    requires AllProper(codec, cs)
  {
    if cs == [] then [] else Encoded(cs[0]) + EncodedAll(codec, cs[1..])
  }

  function ContentsAll(codec: Codec, cs: seq<Chunk>): seq<byte> {
    if cs == [] then [] else Contents(codec, cs[0]) + ContentsAll(codec, cs[1..])
  }

  // ---- reading one chunk ----

  /** The chunk lies in the data at `offset`. */
  ghost predicate LiesAt(codec: Codec, data: seq<byte>, offset: nat, c: Chunk)
    requires Proper(codec, c)
  {
    offset + |Encoded(c)| <= |data| && data[offset..offset + |Encoded(c)|] == Encoded(c)
  }

  /** The size in the header reads back. */
  lemma {:induction false} ThreeBytes(s: seq<byte>, n: nat)
    requires n < 0x100_0000 && s == [n % 0x100, n / 0x100 % 0x100, n / 0x1_0000]
    ensures LittleEndian(s) == n
  {
    var t := s[1..];
    var u := t[1..];
    assert u[1..] == [] && u[0] == s[2] && t[0] == s[1];
    assert LittleEndian(u) == u[0] + 256 * LittleEndian(u[1..]) == u[0];
    assert LittleEndian(t) == t[0] + 256 * LittleEndian(u);
  }

  lemma {:induction false} SubSlice(data: seq<byte>, lo: nat, hi: nat, i: nat, j: nat)
    requires lo <= hi <= |data| && i <= j <= hi - lo
    ensures data[lo..hi][i..j] == data[lo + i..lo + j]
  {
    var part := data[lo..hi];
    forall k | 0 <= k < j - i ensures part[i..j][k] == data[lo + i..lo + j][k] {
      assert part[i..j][k] == part[i + k];
    }
  }

  /** A chunk of any type lies in the data at `offset`. */
  ghost predicate FramedAt(data: seq<byte>, offset: nat, kind: byte, body: seq<byte>)
    requires |body| < 0x100_0000
  {
    offset + |Framed(kind, body)| <= |data| && data[offset..offset + |Framed(kind, body)|] == Framed(kind, body)
  }

  lemma {:induction false} FramedHeader(data: seq<byte>, offset: nat, kind: byte, body: seq<byte>)
    requires 0 < |body| < 0x100_0000 && FramedAt(data, offset, kind, body)
    ensures offset + 4 < |data| && FrameType(data, offset) == kind && FrameSize(data, offset) == |body|
  {
    var e, n := Framed(kind, body), |body|;
    assert data[offset..offset + |e|][0] == data[offset];
    SubSlice(data, offset, offset + |e|, 1, 4);
    ThreeBytes(e[1..4], n);
  }

  lemma {:induction false} FramedBody(data: seq<byte>, offset: nat, kind: byte, body: seq<byte>)
    requires 0 < |body| < 0x100_0000 && FramedAt(data, offset, kind, body)
    ensures offset + 4 + |body| <= |data| && data[offset + 4..offset + 4 + |body|] == body
  {
    var e := Framed(kind, body);
    SubSlice(data, offset, offset + |e|, 4, |e|);
    assert e[4..|e|] == body;
  }

  lemma {:induction false} HeaderRead(codec: Codec, data: seq<byte>, offset: nat, c: Chunk)
    requires Proper(codec, c) && LiesAt(codec, data, offset, c)
    ensures offset + 4 < |data| && FrameType(data, offset) == Kind(c) && FrameSize(data, offset) == |Body(c)|
  {
    FramedHeader(data, offset, Kind(c), Body(c));
  }

  lemma {:induction false} BodyRead(codec: Codec, data: seq<byte>, offset: nat, c: Chunk)
    requires Proper(codec, c) && LiesAt(codec, data, offset, c)
    ensures offset + 4 + |Body(c)| <= |data| && data[offset + 4..offset + 4 + |Body(c)|] == Body(c)
  {
    FramedBody(data, offset, Kind(c), Body(c));
  }

  /** A written chunk gives its contents, and a data chunk records the frame of its payload. */
  lemma {:induction false} ChunkRead(codec: Codec, data: seq<byte>, offset: nat, c: Chunk)
    requires Proper(codec, c) && LiesAt(codec, data, offset, c)
    ensures offset + 4 < |data| && NextFrame(data, offset) == offset + |Encoded(c)|
    ensures Payload(codec, data, offset) == Ok(Contents(codec, c))
  {
    HeaderRead(codec, data, offset, c);
    BodyRead(codec, data, offset, c);
    var body := data[offset + 4..offset + 4 + |Body(c)|];
    assert Slice(data, offset + 4, NextFrame(data, offset)) == body;
    if c.Compressed? || c.Uncompressed? {
      assert Slice(data, offset + 8, NextFrame(data, offset)) == body[4..] == c.payload;
    }
  }

  lemma {:induction false} FrameRead(codec: Codec, data: seq<byte>, offset: nat, c: Chunk, produced: nat)
    requires Proper(codec, c) && LiesAt(codec, data, offset, c)
    ensures offset + 4 < |data|
    ensures Stream(codec, data, Recorded(data, offset, produced, |Contents(codec, c)|)) == Contents(codec, c)
  {
    HeaderRead(codec, data, offset, c);
    BodyRead(codec, data, offset, c);
    ChunkRead(codec, data, offset, c);
    if c.Compressed? || c.Uncompressed? {
      var f := Recorded(data, offset, produced, |Contents(codec, c)|)[0];
      assert data[f.mapped..f.mapped + f.mappedLength] == data[offset + 4..offset + 4 + |Body(c)|][4..] == c.payload;
      assert [f][1..] == [];
    }
  }

  // ---- reading a stream ----

  lemma {:induction false} StreamConcat(codec: Codec, data: seq<byte>, fs: seq<Frame>, gs: seq<Frame>)
    ensures Stream(codec, data, fs + gs) == Stream(codec, data, fs) + Stream(codec, data, gs)
  {
    if fs == [] {
      assert fs + gs == gs;
    } else {
      assert (fs + gs)[1..] == fs[1..] + gs;
      StreamConcat(codec, data, fs[1..], gs);
    }
  }

  /** The reader stops behind the first `n` of the chunks, with frames that give their contents;
      these exceed the expected length, and without the last chunk they would not. */
  ghost predicate ReadsBack(codec: Codec, data: seq<byte>, offset: nat, cs: seq<Chunk>, expected: int, produced: nat,
                            n: nat)
  {
    var o := ReadFrom(codec, data, expected, offset, produced);
    && n <= |cs| && AllProper(codec, cs[..n])
    && o.Frames? && o.consumed == offset + |EncodedAll(codec, cs[..n])|
    && Stream(codec, data, o.frames) == ContentsAll(codec, cs[..n])
    && produced + |ContentsAll(codec, cs[..n])| > expected
    && (n > 0 ==> produced + |ContentsAll(codec, cs[..n - 1])| <= expected)
  }

  lemma {:induction false} ReadsBackStep(codec: Codec, data: seq<byte>, offset: nat, cs: seq<Chunk>, expected: int,
                                         produced: nat, next: nat, total: nat, k: nat)
    requires AllProper(codec, cs) && cs != [] && LiesAt(codec, data, offset, cs[0]) && produced <= expected
    requires next == offset + |Encoded(cs[0])| && total == produced + |Contents(codec, cs[0])|
    requires ReadsBack(codec, data, next, cs[1..], expected, total, k)
    ensures ReadsBack(codec, data, offset, cs, expected, produced, k + 1)
  {
    var c := cs[0];
    ChunkRead(codec, data, offset, c);
    FrameRead(codec, data, offset, c, produced);
    ReadGood(codec, data, expected, offset, produced, |Contents(codec, c)|, next, total);
    var o := ReadFrom(codec, data, expected, next, total);
    StreamConcat(codec, data, Recorded(data, offset, produced, |Contents(codec, c)|), o.frames);
    PrefixCons(codec, cs, k);
    if k > 0 { PrefixCons(codec, cs, k - 1); }
  }

  /** Chunks written one after the other are read back, as far as the expected length asks. */
  lemma {:induction false} WrittenIsRead(codec: Codec, data: seq<byte>, offset: nat, cs: seq<Chunk>,
                                         expected: int, produced: nat)
    returns (n: nat)
    requires AllProper(codec, cs) && offset <= |data| && EncodedAll(codec, cs) <= data[offset..]
    requires produced + |ContentsAll(codec, cs)| > expected
    ensures ReadsBack(codec, data, offset, cs, expected, produced, n)
    decreases |cs|
  {
    if produced > expected {
      n := 0;
    } else {
      FirstChunk(codec, data, offset, cs);
      var next, total := offset + |Encoded(cs[0])|, produced + |Contents(codec, cs[0])|;
      var k := WrittenIsRead(codec, data, next, cs[1..], expected, total);
      n := k + 1;
      ReadsBackStep(codec, data, offset, cs, expected, produced, next, total, k);
    }
  }

  lemma {:induction false} FirstChunk(codec: Codec, data: seq<byte>, offset: nat, cs: seq<Chunk>)
    requires AllProper(codec, cs) && cs != [] && offset <= |data| && EncodedAll(codec, cs) <= data[offset..]
    ensures Proper(codec, cs[0]) && LiesAt(codec, data, offset, cs[0])
    ensures EncodedAll(codec, cs[1..]) <= data[offset + |Encoded(cs[0])|..]
  {
    var e, rest := Encoded(cs[0]), EncodedAll(codec, cs[1..]);
    var tail := data[offset..];
    PrefixParts(e, rest, tail);
    assert tail[..|e|] == data[offset..offset + |e|];
    assert tail[|e|..] == data[offset + |e|..];
  }

  lemma {:induction false} PrefixParts(e: seq<byte>, rest: seq<byte>, tail: seq<byte>)
    requires e + rest <= tail
    ensures e <= tail && tail[..|e|] == e && rest <= tail[|e|..]
  {
    assert (e + rest)[..|e|] == e && (e + rest)[|e|..] == rest;
  }

  lemma {:induction false} PrefixCons(codec: Codec, cs: seq<Chunk>, k: nat)
    requires AllProper(codec, cs) && k < |cs|
    ensures AllProper(codec, cs[..k + 1]) && AllProper(codec, cs[1..][..k])
    ensures EncodedAll(codec, cs[..k + 1]) == Encoded(cs[0]) + EncodedAll(codec, cs[1..][..k])
    ensures ContentsAll(codec, cs[..k + 1]) == Contents(codec, cs[0]) + ContentsAll(codec, cs[1..][..k])
  {
    assert cs[..k + 1][1..] == cs[1..][..k];
  }

  /** Written chunks that give no more than the expected length make the reader hang. */
  lemma {:induction false} WrittenHangs(codec: Codec, data: seq<byte>, offset: nat, cs: seq<Chunk>,
                                        expected: int, produced: nat)
    requires AllProper(codec, cs) && offset <= |data| && EncodedAll(codec, cs) == data[offset..]
    requires produced + |ContentsAll(codec, cs)| <= expected
    ensures ReadFrom(codec, data, expected, offset, produced) == Hangs
    decreases |cs|
  {
    if cs != [] {
      var c, rest := cs[0], cs[1..];
      FirstChunk(codec, data, offset, cs);
      ChunkRead(codec, data, offset, c);
      var next, total := offset + |Encoded(c)|, produced + |Contents(codec, c)|;
      assert |EncodedAll(codec, rest)| == |data[next..]|;
      ReadGood(codec, data, expected, offset, produced, |Contents(codec, c)|, next, total);
      WrittenHangs(codec, data, next, rest, expected, total);
    }
  }

  /** A chunk of a reserved type that must not be skipped, a stream identifier with other text, or
      data that does not decompress. */
  predicate Unreadable(codec: Codec, kind: byte, body: seq<byte>) {
    || 0x02 <= kind <= 0x7F
    || (kind == 0xFF && body != STREAM_IDENTIFIER)
    || (kind == 0x00 && |body| >= 4 && codec(body[4..]).Err?)
  }

  lemma {:induction false} UnreadableRaises(codec: Codec, data: seq<byte>, offset: nat, kind: byte, body: seq<byte>)
    requires 0 < |body| < 0x100_0000 && FramedAt(data, offset, kind, body) && Unreadable(codec, kind, body)
    ensures offset + 4 < |data|
    ensures Payload(codec, data, offset) == Err(if kind == 0x00 then codec(body[4..]).error else Malformed)
  {
    FramedHeader(data, offset, kind, body);
    FramedBody(data, offset, kind, body);
    var part := data[offset + 4..offset + 4 + |body|];
    assert Slice(data, offset + 4, NextFrame(data, offset)) == part;
    if kind == 0x00 { assert Slice(data, offset + 8, NextFrame(data, offset)) == part[4..]; }
  }

  /** Written chunks that give no more than the expected length, and then one that a reader must not
      accept: the reader raises. */
  lemma {:induction false} UnreadableIsRaised(codec: Codec, data: seq<byte>, offset: nat, cs: seq<Chunk>, kind: byte,
                                              body: seq<byte>, expected: int, produced: nat)
    requires AllProper(codec, cs) && 0 < |body| < 0x100_0000 && Unreadable(codec, kind, body)
    requires offset <= |data| && EncodedAll(codec, cs) <= data[offset..]
    requires FramedAt(data, offset + |EncodedAll(codec, cs)|, kind, body)
    requires produced + |ContentsAll(codec, cs)| <= expected
    ensures ReadFrom(codec, data, expected, offset, produced)
            == Raised(if kind == 0x00 then codec(body[4..]).error else Malformed)
    decreases |cs|
  {
    if cs == [] {
      UnreadableRaises(codec, data, offset, kind, body);
    } else {
      var c, rest := cs[0], cs[1..];
      FirstChunk(codec, data, offset, cs);
      ChunkRead(codec, data, offset, c);
      var next, total := offset + |Encoded(c)|, produced + |Contents(codec, c)|;
      ReadGood(codec, data, expected, offset, produced, |Contents(codec, c)|, next, total);
      UnreadableIsRaised(codec, data, next, rest, kind, body, expected, total);
    }
  }

  lemma {:induction false} ContentsPrefix(codec: Codec, cs: seq<Chunk>, n: nat)
    requires AllProper(codec, cs) && n <= |cs|
    ensures ContentsAll(codec, cs[..n]) <= ContentsAll(codec, cs)
  {
    if n > 0 {
      PrefixCons(codec, cs, n - 1);
      ContentsPrefix(codec, cs[1..], n - 1);
    }
  }

  /** The codec makes nothing of `bytes`: an error or no bytes. */
  predicate GivesNothing(codec: Codec, bytes: seq<byte>) {
    codec(bytes).Ok? ==> codec(bytes).value == []
  }

  lemma {:induction false} FrameIsWhole(codec: Codec, data: seq<byte>, offset: nat, c: Chunk, produced: nat)
    requires Proper(codec, c) && LiesAt(codec, data, offset, c) && GivesNothing(codec, [])
    ensures offset + 4 < |data|
    ensures AllWhole(Recorded(data, offset, produced, |Contents(codec, c)|), data)
  {
    HeaderRead(codec, data, offset, c);
  }

  /** The frames read from written chunks are whole. */
  lemma {:induction false} WrittenIsWhole(codec: Codec, data: seq<byte>, offset: nat, cs: seq<Chunk>,
                                          expected: int, produced: nat)
    requires AllProper(codec, cs) && offset <= |data| && EncodedAll(codec, cs) <= data[offset..]
    requires produced + |ContentsAll(codec, cs)| > expected && GivesNothing(codec, [])
    ensures var o := ReadFrom(codec, data, expected, offset, produced);
            o.Frames? && AllWhole(o.frames, data)
    decreases |cs|
  {
    if produced <= expected {
      var c, rest := cs[0], cs[1..];
      FirstChunk(codec, data, offset, cs);
      ChunkRead(codec, data, offset, c);
      FrameIsWhole(codec, data, offset, c, produced);
      var next, total := offset + |Encoded(c)|, produced + |Contents(codec, c)|;
      ReadGood(codec, data, expected, offset, produced, |Contents(codec, c)|, next, total);
      WrittenIsWhole(codec, data, next, rest, expected, total);
    }
  }
}
