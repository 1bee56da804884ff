/** AVML files: reading the framed Snappy stream of a memory range (section 4 of the
    Snappy framing format), and reading the decompressed range back through the
    segments recorded for its frames. */
module Avml {
  import opened Bits
  import opened Memory
  import opened PageTables

  type Codec = seq<byte> -> Result<seq<byte>>

  const STREAM_IDENTIFIER: seq<byte> := [0x73, 0x4E, 0x61, 0x50, 0x70, 0x59]

  /** One recorded data frame, relative to its stream: where its decompressed bytes go, and
      where its payload lies. The payload of a frame shorter than its checksum is negative. */
  datatype Frame = Frame(start: nat, mapped: nat, length: nat, mappedLength: int, compressed: bool)

  /** How reading a stream ends. `Hangs`: no frame is left, yet too little was decompressed,
      and the loop goes on without changing anything. */
  datatype Outcome = Frames(frames: seq<Frame>, consumed: nat) | Raised(error: Error) | Hangs

  /** `s[lo:hi]` with the bounds clamped. */
  function Slice(s: seq<byte>, lo: nat, hi: nat): seq<byte> {
    if lo <= hi then s[Min(lo, |s|)..Min(hi, |s|)] else []
  }

  function FrameType(data: seq<byte>, offset: nat): nat
    requires offset + 4 < |data|
  {
    data[offset]
  }

  function FrameSize(data: seq<byte>, offset: nat): nat
    requires offset + 4 < |data|
  {
    LittleEndian(data[offset + 1..offset + 4])
  }

  function NextFrame(data: seq<byte>, offset: nat): nat
    requires offset + 4 < |data|
  {
    offset + 4 + FrameSize(data, offset)
  }

  /** The bytes a frame contributes: nothing for the stream identifier and for skippable
      frames, an error for unskippable frames and bad identifiers. */
  function Payload(codec: Codec, data: seq<byte>, offset: nat): Result<seq<byte>>
    requires offset + 4 < |data|
  {
    var kind, body := FrameType(data, offset), Slice(data, offset + 4, NextFrame(data, offset));
    if kind == 0xFF then if body == STREAM_IDENTIFIER then Ok([]) else Err(Malformed)
    else if kind == 0x00 then codec(Slice(data, offset + 8, NextFrame(data, offset)))
    else if kind == 0x01 then Ok(Slice(data, offset + 8, NextFrame(data, offset)))
    else if 0x02 <= kind < 0x80 then Err(Malformed)
    else Ok([])
  }

  /** The frames recorded at `offset`: one for a data frame, none otherwise. */
  function Recorded(data: seq<byte>, offset: nat, produced: nat, length: nat): seq<Frame>
    requires offset + 4 < |data|
  {
    if FrameType(data, offset) <= 0x01 then
      [Frame(produced, offset + 8, length, FrameSize(data, offset) - 4, FrameType(data, offset) == 0x00)]
    else []
  }

  function Prepend(fs: seq<Frame>, o: Outcome): Outcome {
    if o.Frames? then Frames(fs + o.frames, o.consumed) else o
  }

  /** Reading the stream from `offset` when `produced` bytes are decompressed already. */
  function ReadFrom(codec: Codec, data: seq<byte>, expected: int, offset: nat, produced: nat): Outcome
    decreases |data| - offset
  {
    if produced > expected then Frames([], offset)
    else if offset + 4 >= |data| then Hangs
    else
      var payload := Payload(codec, data, offset);
      if payload.Err? then Raised(payload.error)
      else
        Prepend(Recorded(data, offset, produced, |payload.value|),
                ReadFrom(codec, data, expected, NextFrame(data, offset), produced + |payload.value|))
  }

  function ReadStream(codec: Codec, data: seq<byte>, expected: int): Outcome {
    ReadFrom(codec, data, expected, 0, 0)
  }

  lemma {:induction false} ReadStep(codec: Codec, data: seq<byte>, expected: int, offset: nat, produced: nat)
    requires produced <= expected && offset + 4 < |data|
    ensures var payload := Payload(codec, data, offset);
            ReadFrom(codec, data, expected, offset, produced) ==
            if payload.Err? then Raised(payload.error)
            else Prepend(Recorded(data, offset, produced, |payload.value|),
                         ReadFrom(codec, data, expected, NextFrame(data, offset), produced + |payload.value|))
  {
  }

  lemma {:induction false} ReadGood(codec: Codec, data: seq<byte>, expected: int, offset: nat, produced: nat,
                                    length: nat, next: nat, total: nat)
    requires produced <= expected && offset + 4 < |data| && Payload(codec, data, offset).Ok?
    requires length == |Payload(codec, data, offset).value| && next == NextFrame(data, offset)
               && total == produced + length
    ensures ReadFrom(codec, data, expected, offset, produced)
            == Prepend(Recorded(data, offset, produced, length), ReadFrom(codec, data, expected, next, total))
  {
    ReadStep(codec, data, expected, offset, produced);
  }

  /** One turn of the reader: the branches on the frame type. */
  method ReadFrame(codec: Codec, data: seq<byte>, offset: nat, decompressed: nat)
    returns (error: Option<Error>, recorded: seq<Frame>, length: nat)
    requires offset + 4 < |data|
    ensures var payload := Payload(codec, data, offset);
            && (payload.Err? ==> error == Some(payload.error))
            && (payload.Ok? ==>
                  && error == None && length == |payload.value|
                  && recorded == Recorded(data, offset, decompressed, length))
  {
    error, recorded, length := None, [], 0;
    var kind, start := FrameType(data, offset), offset + 4;
    var size: int := FrameSize(data, offset);
    if kind == 0xFF {
      if Slice(data, start, start + size) != STREAM_IDENTIFIER {
        error := Some(Malformed);
      }
    } else if kind == 0x00 || kind == 0x01 {
      var bytes := Slice(data, start + 4, start + size);
      if kind == 0x00 {
        var decoded := codec(bytes);
        if decoded.Err? {
          return Some(decoded.error), [], 0;
        }
        bytes := decoded.value;
      }
      recorded, length := [Frame(decompressed, start + 4, |bytes|, size - 4, kind == 0x00)], |bytes|;
    } else if 0x02 <= kind < 0x80 {
      error := Some(Malformed);
    }
  }

  /** `_read_snappy_frames`. */
  method ReadSnappyFrames(codec: Codec, data: seq<byte>, expected: int) returns (o: Outcome)
    ensures o == ReadStream(codec, data, expected)
  {
    var frames: seq<Frame>, decompressed: nat, offset: nat := [], 0, 0;
    ghost var goal, rest := ReadFrom(codec, data, expected, 0, 0), ReadFrom(codec, data, expected, 0, 0);
    PrependNothing(goal);
    while decompressed <= expected
      invariant rest == ReadFrom(codec, data, expected, offset, decompressed)
      invariant goal == Prepend(frames, rest)
      decreases |data| - offset
    {
      if offset + 4 >= |data| {
        return Hangs;
      }
      var error, recorded, length := ReadFrame(codec, data, offset, decompressed);
      if error.Some? {
        ReadStep(codec, data, expected, offset, decompressed);
        return Raised(error.value);
      }
      var next, total := NextFrame(data, offset), decompressed + length;
      ReadGood(codec, data, expected, offset, decompressed, length, next, total);
      rest := ReadFrom(codec, data, expected, next, total);
      PrependTwice(frames, recorded, rest);
      frames, decompressed, offset := frames + recorded, total, next;
    }
    assert frames + [] == frames;
    return Frames(frames, offset);
  }

  lemma {:induction false} PrependNothing(o: Outcome)
    ensures Prepend([], o) == o
  {
    if o.Frames? { assert [] + o.frames == o.frames; }
  }

  lemma {:induction false} PrependTwice(fs: seq<Frame>, gs: seq<Frame>, o: Outcome)
    ensures Prepend(fs, Prepend(gs, o)) == Prepend(fs + gs, o)
  {
    if o.Frames? { assert fs + (gs + o.frames) == fs + gs + o.frames; }
  }

  // ---- when reading a stream ends ----

  /** All frames of a stream, whatever length is expected: how many bytes they give, and
      whether the data ends before a bad frame is met. */
  datatype Supply = Supply(bytes: nat, clean: bool)

  function SupplyFrom(codec: Codec, data: seq<byte>, offset: nat): Supply
    decreases |data| - offset
  {
    if offset + 4 >= |data| then Supply(0, true)
    else
      var payload := Payload(codec, data, offset);
      if payload.Err? then Supply(0, false)
      else
        var rest := SupplyFrom(codec, data, NextFrame(data, offset));
        rest.(bytes := rest.bytes + |payload.value|)
  }

  /** The reader hangs exactly on streams whose frames are all good and give no more than
      the expected length; it returns exactly when they give more. */
  lemma {:induction false} HangsIffTooShort(codec: Codec, data: seq<byte>, expected: int, offset: nat, produced: nat)
    ensures var o, s := ReadFrom(codec, data, expected, offset, produced), SupplyFrom(codec, data, offset);
            && (o.Hangs? <==> s.clean && produced + s.bytes <= expected)
            && (o.Frames? <==> produced + s.bytes > expected)
    decreases |data| - offset
  {
    if produced <= expected && offset + 4 < |data| && Payload(codec, data, offset).Ok? {
      var length := |Payload(codec, data, offset).value|;
      var next, total := NextFrame(data, offset), produced + length;
      ReadGood(codec, data, expected, offset, produced, length, next, total);
      SupplyGood(codec, data, offset, length, next);
      HangsIffTooShort(codec, data, expected, next, total);
    }
  }

  lemma {:induction false} SupplyGood(codec: Codec, data: seq<byte>, offset: nat, length: nat, next: nat)
    requires offset + 4 < |data| && Payload(codec, data, offset).Ok?
    requires length == |Payload(codec, data, offset).value| && next == NextFrame(data, offset)
    ensures SupplyFrom(codec, data, offset).bytes == SupplyFrom(codec, data, next).bytes + length
    ensures SupplyFrom(codec, data, offset).clean == SupplyFrom(codec, data, next).clean
  {
  }

  /** No frame that reading meets from `offset` on is compressed. */
  predicate NoneCompressed(data: seq<byte>, offset: nat)
    decreases |data| - offset
  {
    offset + 4 >= |data| || (FrameType(data, offset) != 0x00 && NoneCompressed(data, NextFrame(data, offset)))
  }

  /** Without compression a stream gives no more bytes than it has. */
  lemma {:induction false} PlainSupply(codec: Codec, data: seq<byte>, offset: nat)
    requires NoneCompressed(data, offset)
    ensures SupplyFrom(codec, data, offset).bytes <= Max(0, |data| - offset)
    decreases |data| - offset
  {
    if offset + 4 < |data| && Payload(codec, data, offset).Ok? {
      PlainSupply(codec, data, NextFrame(data, offset));
    }
  }

  // ---- the recorded frames tile the stream ----

  /** The decompressed bytes of a recorded frame whose payload lies in `data`. */
  function Decode(codec: Codec, compressed: bool, bytes: seq<byte>): Result<seq<byte>> {
    if compressed then codec(bytes) else Ok(bytes)
  }

  predicate Fits(f: Frame, data: seq<byte>) {
    0 <= f.mappedLength && f.mapped + f.mappedLength <= |data|
  }

  /** A frame whose payload lies in the data, and that gives nothing without a payload. */
  predicate Whole(f: Frame, data: seq<byte>) {
    Fits(f, data) && (f.mappedLength == 0 ==> f.length == 0)
  }

  predicate AllWhole(frames: seq<Frame>, data: seq<byte>) {
    forall i :: 0 <= i < |frames| ==> Whole(frames[i], data)
  }

  /** The decompressed bytes of a frame; nothing if its payload is cut off or bad. */
  function FrameBytes(codec: Codec, data: seq<byte>, f: Frame): seq<byte> {
    if !Fits(f, data) then []
    else
      var d := Decode(codec, f.compressed, data[f.mapped..f.mapped + f.mappedLength]);
      if d.Ok? then d.value else []
  }

  /** The concatenated decompressed frames. */
  function Stream(codec: Codec, data: seq<byte>, frames: seq<Frame>): seq<byte> {
    if frames == [] then [] else FrameBytes(codec, data, frames[0]) + Stream(codec, data, frames[1..])
  }

  function FramesLength(frames: seq<Frame>): nat {
    if frames == [] then 0 else frames[0].length + FramesLength(frames[1..])
  }

  /** Each frame starts where the one before it ended in the decompressed stream, and its
      payload comes after the payload before it, between `from` and `to`. */
  predicate Tiles(frames: seq<Frame>, produced: nat, from: int, to: int) {
    if frames == [] then from <= to
    else
      && frames[0].start == produced && from + 8 <= frames[0].mapped && -4 <= frames[0].mappedLength
      && Tiles(frames[1..], produced + frames[0].length, frames[0].mapped + frames[0].mappedLength, to)
  }

  lemma {:induction false} TilesFromEarlier(frames: seq<Frame>, produced: nat, from: int, from': int, to: int)
    requires Tiles(frames, produced, from, to) && from' <= from
    ensures Tiles(frames, produced, from', to)
  {
  }

  predicate DecodesToLength(codec: Codec, data: seq<byte>, f: Frame) {
    Fits(f, data) ==>
      var d := Decode(codec, f.compressed, data[f.mapped..f.mapped + f.mappedLength]);
      d.Ok? && |d.value| == f.length
  }

  predicate AllDecode(codec: Codec, data: seq<byte>, frames: seq<Frame>) {
    forall f :: f in frames ==> DecodesToLength(codec, data, f)
  }

  /** The recorded frames tile the stream past the expected length, each with the length it
      decompresses to. */
  predicate WellRecorded(codec: Codec, data: seq<byte>, expected: int, offset: nat, produced: nat, o: Outcome) {
    o.Frames? ==>
      && Tiles(o.frames, produced, offset, o.consumed)
      && produced + FramesLength(o.frames) > expected
      && AllDecode(codec, data, o.frames)
  }

  lemma {:induction false} FramesTile(codec: Codec, data: seq<byte>, expected: int, offset: nat, produced: nat)
    ensures WellRecorded(codec, data, expected, offset, produced, ReadFrom(codec, data, expected, offset, produced))
    decreases |data| - offset
  {
    if produced <= expected && offset + 4 < |data| && Payload(codec, data, offset).Ok? {
      var length := |Payload(codec, data, offset).value|;
      var next, total := NextFrame(data, offset), produced + length;
      ReadGood(codec, data, expected, offset, produced, length, next, total);
      FramesTile(codec, data, expected, next, total);
      FrameTiles(codec, data, expected, offset, produced, length, next, total,
          ReadFrom(codec, data, expected, next, total));
    } else {
      NoFrames(codec, data, expected, offset, produced);
    }
  }

  /** The last frame gives at least one byte. */
  predicate LastGives(frames: seq<Frame>) {
    frames != [] ==> frames[|frames| - 1].length > 0
  }

  /** Reading stops with the frame that exceeds the expected length, so that frame is not empty. */
  lemma {:induction false} LastFrameGives(codec: Codec, data: seq<byte>, expected: int, offset: nat, produced: nat)
    ensures var o := ReadFrom(codec, data, expected, offset, produced);
            o.Frames? ==> LastGives(o.frames)
    decreases |data| - offset
  {
    if produced <= expected && offset + 4 < |data| && Payload(codec, data, offset).Ok? {
      var length := |Payload(codec, data, offset).value|;
      var next, total := NextFrame(data, offset), produced + length;
      ReadGood(codec, data, expected, offset, produced, length, next, total);
      LastFrameGives(codec, data, expected, next, total);
      FramesTile(codec, data, expected, next, total);
    }
  }

  lemma {:induction false} NoFrames(codec: Codec, data: seq<byte>, expected: int, offset: nat, produced: nat)
    requires produced > expected || offset + 4 >= |data| || Payload(codec, data, offset).Err?
    ensures WellRecorded(codec, data, expected, offset, produced, ReadFrom(codec, data, expected, offset, produced))
  {
  }

  lemma {:induction false} FrameTiles(codec: Codec, data: seq<byte>, expected: int, offset: nat, produced: nat,
                                      length: nat, next: nat, total: nat, rest: Outcome)
    requires offset + 4 < |data| && Payload(codec, data, offset).Ok? && length == |Payload(codec, data, offset).value|
    requires next == NextFrame(data, offset) && total == produced + length
    requires WellRecorded(codec, data, expected, next, total, rest)
    ensures WellRecorded(codec, data, expected, offset, produced,
              Prepend(Recorded(data, offset, produced, length), rest))
  {
    var recorded := Recorded(data, offset, produced, length);
    if rest.Frames? {
      if FrameType(data, offset) <= 0x01 {
        RecordedDecodes(codec, data, offset, produced);
        TilesCons(recorded[0], rest.frames, offset, rest.consumed);
        assert recorded == [recorded[0]];
      } else {
        assert recorded + rest.frames == rest.frames;
        TilesFromEarlier(rest.frames, produced, NextFrame(data, offset), offset, rest.consumed);
      }
    }
  }

  lemma {:induction false} TilesCons(f: Frame, rest: seq<Frame>, from: int, to: int)
    requires from + 8 <= f.mapped && -4 <= f.mappedLength
    requires Tiles(rest, f.start + f.length, f.mapped + f.mappedLength, to)
    ensures Tiles([f] + rest, f.start, from, to)
    ensures FramesLength([f] + rest) == f.length + FramesLength(rest)
  {
    assert ([f] + rest)[1..] == rest;
  }

  lemma {:induction false} RecordedDecodes(codec: Codec, data: seq<byte>, offset: nat, produced: nat)
    requires offset + 4 < |data| && Payload(codec, data, offset).Ok? && FrameType(data, offset) <= 0x01
    ensures var f := Recorded(data, offset, produced, |Payload(codec, data, offset).value|)[0];
            DecodesToLength(codec, data, f) && f.mapped + f.mappedLength == NextFrame(data, offset)
  {
    var f := Recorded(data, offset, produced, |Payload(codec, data, offset).value|)[0];
    if Fits(f, data) {
      assert Slice(data, offset + 8, NextFrame(data, offset)) == data[f.mapped..f.mapped + f.mappedLength];
    }
  }
}
