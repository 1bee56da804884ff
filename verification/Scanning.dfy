/** Cutting a section into chunks for a scanner: the iterator of the layers that hold
    data and the iterator of the translation layers. */
module Scanning {
  import opened Bits
  import opened Pieces

  /** A stretch of a layer to read for a chunk. */
  datatype Block = Block(layer: string, address: int, size: nat)

  /** What an iterator yields: the blocks that make up a chunk, and where the chunk ends. */
  datatype Chunk = Chunk(blocks: seq<Block>, end: nat)

  /** The sizes of a scanner's chunks. */
  datatype Scanner = Scanner(chunkSize: nat, overlap: nat)

  // ---- translation layers ----

  /** How the iterator names bytes: a level down when linear, in its own layer otherwise. */
  datatype Naming = Naming(linear: bool, self: string)

  function BlockAt(naming: Naming, p: Piece, at: nat, size: nat): Block {
    if naming.linear then Block(p.layer, at + p.mappedOffset - p.offset, size) else Block(naming.self, at, size)
  }

  /** The end of the chunk that starts at `at` in a mapped piece. */
  function WindowEnd(s: Scanner, p: Piece, at: nat): nat {
    Min(p.End(), at + s.chunkSize + s.overlap)
  }

  function Window(s: Scanner, naming: Naming, p: Piece, at: nat): Chunk
    requires at < p.End()
  {
    Chunk([BlockAt(naming, p, at, WindowEnd(s, p, at) - at)], WindowEnd(s, p, at))
  }

  /** The chunks of piece `p` from `from` up to, not including, `to`: one each `chunkSize` bytes. */
  function Windows(s: Scanner, naming: Naming, p: Piece, from: nat, to: nat): seq<Chunk>
    requires s.chunkSize > 0
    decreases Max(0, to - from)
  {
    if from >= to || from >= p.End() then []
    else [Window(s, naming, p, from)] + Windows(s, naming, p, from + s.chunkSize, to)
  }

  function AllWindows(s: Scanner, naming: Naming, ps: seq<Piece>, n: nat): seq<Chunk>
    requires s.chunkSize > 0 && n <= |ps|
  {
    if n == 0 then []
    else AllWindows(s, naming, ps, n - 1) + Windows(s, naming, ps[n - 1], ps[n - 1].offset, ps[n - 1].End())
  }

  /** There is a hole before piece `i`. */
  predicate Gap(ps: seq<Piece>, i: nat)
    requires i < |ps|
  {
    Reached(ps, i, 0) < ps[i].offset
  }

  /** No chunk is being filled when piece `i` comes up: nothing was mapped since the start, or
      since the last hole. */
  predicate NothingFilled(ps: seq<Piece>, i: nat)
    requires i <= |ps|
  {
    i == 0 || (ps[i - 1].length == 0 && (Gap(ps, i - 1) || NothingFilled(ps, i - 1)))
  }

  /** A hole ends the chunk being filled, also when it is empty. */
  function EmptyBefore(ps: seq<Piece>, i: nat): seq<Chunk>
    requires i < |ps|
  {
    if Gap(ps, i) && NothingFilled(ps, i) then [Chunk([], Reached(ps, i, 0))] else []
  }

  /** Everything the iterator yields for the first `n` pieces. */
  function AllChunks(s: Scanner, naming: Naming, ps: seq<Piece>, n: nat): seq<Chunk>
    requires s.chunkSize > 0 && n <= |ps|
  {
    if n == 0 then []
    else AllChunks(s, naming, ps, n - 1) + EmptyBefore(ps, n - 1)
         + Windows(s, naming, ps[n - 1], ps[n - 1].offset, ps[n - 1].End())
  }

  /** The chunks that have blocks. */
  function NonEmpty(cs: seq<Chunk>): seq<Chunk> {
    if cs == [] then []
    else NonEmpty(cs[..|cs| - 1]) + (if cs[|cs| - 1].blocks == [] then [] else [cs[|cs| - 1]])
  }

  lemma {:induction false} NonEmptyConcat(cs: seq<Chunk>, ds: seq<Chunk>)
    ensures NonEmpty(cs + ds) == NonEmpty(cs) + NonEmpty(ds)
  {
    if ds == [] {
      assert cs + ds == cs;
    } else {
      var n := |ds| - 1;
      assert (cs + ds)[..|cs| + n] == cs + ds[..n];
      NonEmptyConcat(cs, ds[..n]);
    }
  }

  lemma {:induction false} WindowsHaveBlocks(s: Scanner, naming: Naming, p: Piece, from: nat, to: nat)
    requires s.chunkSize > 0
    ensures forall c :: c in Windows(s, naming, p, from, to) ==> c.blocks != []
    decreases Max(0, to - from)
  {
    if from < to { WindowsHaveBlocks(s, naming, p, from + s.chunkSize, to); }
  }

  lemma {:induction false} AllKept(cs: seq<Chunk>)
    requires forall c :: c in cs ==> c.blocks != []
    ensures NonEmpty(cs) == cs
  {
    if cs != [] {
      var n := |cs| - 1;
      assert cs[n] in cs && cs == cs[..n] + [cs[n]];
      AllKept(cs[..n]);
    }
  }

  lemma {:induction false} NoneKept(cs: seq<Chunk>)
    requires forall c :: c in cs ==> c.blocks == []
    ensures NonEmpty(cs) == []
  {
    if cs != [] {
      assert cs[|cs| - 1] in cs;
      NoneKept(cs[..|cs| - 1]);
    }
  }

  lemma {:induction false} KeptOfParts(all: seq<Chunk>, cs: seq<Chunk>, es: seq<Chunk>, ws: seq<Chunk>)
    requires all == cs + es + ws
    requires forall c :: c in es ==> c.blocks == []
    requires forall c :: c in ws ==> c.blocks != []
    ensures NonEmpty(all) == NonEmpty(cs) + ws
  {
    NonEmptyConcat(cs + es, ws);
    NonEmptyConcat(cs, es);
    NoneKept(es);
    AllKept(ws);
  }

  /** Apart from the empty ones, the chunks are the windows of the pieces. */
  lemma {:induction false} NonEmptyAreWindows(s: Scanner, naming: Naming, ps: seq<Piece>, n: nat, all: seq<Chunk>)
    requires s.chunkSize > 0 && n <= |ps| && all == AllChunks(s, naming, ps, n)
    ensures NonEmpty(all) == AllWindows(s, naming, ps, n)
  {
    if n > 0 {
      var p := ps[n - 1];
      var cs, es, ws := AllChunks(s, naming, ps, n - 1), EmptyBefore(ps, n - 1),
          Windows(s, naming, p, p.offset, p.End());
      NonEmptyAreWindows(s, naming, ps, n - 1, cs);
      WindowsHaveBlocks(s, naming, p, p.offset, p.End());
      KeptOfParts(all, cs, es, ws);
    }
  }

  function Pending(output: seq<Block>, end: nat): seq<Chunk> {
    if output == [] then [] else [Chunk(output, end)]
  }

  /** `to` is a whole number of steps of `size` after `from`. */
  predicate Reaches(from: nat, to: nat, size: nat)
    requires size > 0
    decreases Max(0, to - from)
  {
    from == to || (from < to && Reaches(from + size, to, size))
  }

  lemma {:induction false} WindowsSnoc(s: Scanner, naming: Naming, p: Piece, from: nat, to: nat)
    requires s.chunkSize > 0 && Reaches(from, to, s.chunkSize) && to < p.End()
    ensures Reaches(from, to + s.chunkSize, s.chunkSize)
    ensures Windows(s, naming, p, from, to + s.chunkSize)
              == Windows(s, naming, p, from, to) + [Window(s, naming, p, to)]
    decreases Max(0, to - from)
  {
    if from == to {
      assert Windows(s, naming, p, from + s.chunkSize, to + s.chunkSize) == [];
    } else {
      WindowsSnoc(s, naming, p, from + s.chunkSize, to);
    }
  }

  /** The chunks yielded so far and the one being filled. */
  function Yielded(chunks: seq<Chunk>, output: seq<Block>, end: nat): seq<Chunk> {
    chunks + Pending(output, end)
  }

  /** One turn of the loop over a block: the chunk being filled is yielded and the next
      window begins. */
  lemma {:induction false} WindowStep(s: Scanner, naming: Naming, p: Piece, chunks: seq<Chunk>, output: seq<Block>,
                                      end: nat, at: nat, done: seq<Chunk>)
    requires s.chunkSize > 0 && Reaches(p.offset, at, s.chunkSize) && at < p.End()
    requires Yielded(chunks, output, end) == done + Windows(s, naming, p, p.offset, at)
    ensures var w := Window(s, naming, p, at);
            Yielded(Yielded(chunks, output, end), w.blocks, w.end)
            == done + Windows(s, naming, p, p.offset, at + s.chunkSize)
    ensures Reaches(p.offset, at + s.chunkSize, s.chunkSize)
  {
    var w, more := Window(s, naming, p, at), Windows(s, naming, p, p.offset, at);
    WindowsSnoc(s, naming, p, p.offset, at);
    var yielded := Yielded(chunks, output, end);
    assert Yielded(yielded, w.blocks, w.end) == yielded + [w] == done + (more + [w]);
  }

  /** The loop over the scanner chunks of one mapped block. Its loop variable is `chunkStart`. */
  method ScanBlock(s: Scanner, naming: Naming, p: Piece, chunks0: seq<Chunk>, output0: seq<Block>)
    returns (chunks: seq<Chunk>, output: seq<Block>, chunkStart: nat, chunkPosition: nat)
    requires s.chunkSize > 0
    ensures chunkStart == chunkPosition == p.End()
    ensures Yielded(chunks, output, p.End())
            == Yielded(chunks0, output0, p.offset) + Windows(s, naming, p, p.offset, p.End())
    ensures output == [] <==> output0 == [] && p.length == 0
  {
    chunks, output, chunkStart, chunkPosition := chunks0, output0, p.offset, p.offset;
    var at := p.offset;
    ghost var done := Yielded(chunks0, output0, p.offset);
    while at < p.End()
      invariant p.offset <= at && Reaches(p.offset, at, s.chunkSize)
      invariant if p.offset < at then output != [] && p.length > 0 else output == output0
      invariant chunkStart == chunkPosition == if at == p.offset then p.offset else Min(p.End(), at + s.overlap)
      invariant Yielded(chunks, output, chunkPosition) == done + Windows(s, naming, p, p.offset, at)
      decreases Max(0, p.End() - at)
    {
      chunkStart := at;
      WindowStep(s, naming, p, chunks, output, chunkPosition, at, done);
      if output != [] {
        chunks := chunks + [Chunk(output, chunkPosition)];
        output := [];
        chunkPosition := chunkStart;
      }
      assert chunkPosition == at;
      var size := Min(p.End() - chunkPosition, s.chunkSize + s.overlap - (chunkPosition - chunkStart));
      assert at + size == WindowEnd(s, p, at);
      output := output + [BlockAt(naming, p, chunkPosition, size)];
      assert output == Window(s, naming, p, at).blocks;
      chunkStart := chunkPosition + size;
      chunkPosition := chunkStart;
      at := at + s.chunkSize;
    }
    WindowsUpToEnd(s, naming, p, p.offset, at);
  }

  lemma {:induction false} GapStep(s: Scanner, naming: Naming, ps: seq<Piece>, i: nat, chunks: seq<Chunk>,
                                   output: seq<Block>, end: nat)
    requires s.chunkSize > 0 && i < |ps| && end == Reached(ps, i, 0) && (output == [] <==> NothingFilled(ps, i))
    requires Yielded(chunks, output, end) == AllChunks(s, naming, ps, i)
    ensures AllChunks(s, naming, ps, i) + EmptyBefore(ps, i)
            == if Gap(ps, i) then Yielded(chunks + [Chunk(output, end)], [], ps[i].offset)
                else Yielded(chunks, output, end)
  {
  }

  lemma {:induction false} TurnDone(s: Scanner, naming: Naming, ps: seq<Piece>, i: nat)
    requires s.chunkSize > 0 && i < |ps|
    ensures AllChunks(s, naming, ps, i + 1)
            == AllChunks(s, naming, ps, i) + EmptyBefore(ps, i) + Windows(s, naming, ps[i], ps[i].offset, ps[i].End())
    ensures NothingFilled(ps, i + 1) <==> ps[i].length == 0 && (Gap(ps, i) || NothingFilled(ps, i))
  {
  }

  /** `_scan_iterator` of the translation layers over the mapping of one section. Whenever a
      block begins, the chunk being filled ends where it starts, so the branch that finishes a
      half-filled chunk cannot be reached. */
  method ScanPieces(s: Scanner, naming: Naming, ps: seq<Piece>) returns (chunks: seq<Chunk>)
    requires s.chunkSize > 0 && Ascending(ps)
    ensures chunks == AllChunks(s, naming, ps, |ps|)
    ensures NonEmpty(chunks) == AllWindows(s, naming, ps, |ps|)
  {
    chunks := [];
    var output: seq<Block> := [];
    var chunkStart: nat, chunkPosition: nat := 0, 0;
    for i := 0 to |ps|
      invariant chunkStart == chunkPosition == Reached(ps, i, 0)
      invariant output == [] <==> NothingFilled(ps, i)
      invariant Yielded(chunks, output, chunkPosition) == AllChunks(s, naming, ps, i)
    {
      NextPieces(ps, i, 0, chunkPosition);
      GapStep(s, naming, ps, i, chunks, output, chunkPosition);
      if chunkPosition < ps[i].offset {
        chunks := chunks + [Chunk(output, chunkPosition)];
        output := [];
        chunkStart, chunkPosition := ps[i].offset, ps[i].offset;
      }
      if chunkPosition != chunkStart {
        assert false;
      }
      TurnDone(s, naming, ps, i);
      chunks, output, chunkStart, chunkPosition := ScanBlock(s, naming, ps[i], chunks, output);
    }
    if output != [] {
      chunks := chunks + [Chunk(output, chunkPosition)];
    }
    NonEmptyAreWindows(s, naming, ps, |ps|, chunks);
  }

  lemma {:induction false} WindowsUpToEnd(s: Scanner, naming: Naming, p: Piece, from: nat, to: nat)
    requires s.chunkSize > 0 && to >= p.End()
    ensures Windows(s, naming, p, from, to) == Windows(s, naming, p, from, p.End())
    decreases Max(0, p.End() - from)
  {
    if from < p.End() { WindowsUpToEnd(s, naming, p, from + s.chunkSize, to); }
  }

  // ---- what the chunks of a translation layer hold ----

  function ChunkSize(c: Chunk): nat {
    BlocksSize(c.blocks)
  }

  function BlocksSize(bs: seq<Block>): nat {
    if bs == [] then 0 else bs[0].size + BlocksSize(bs[1..])
  }

  lemma {:induction false} OneBlock(b: Block, end: nat)
    ensures ChunkSize(Chunk([b], end)) == b.size
  {
    assert [b][1..] == [];
    assert BlocksSize([b]) == b.size + BlocksSize([b][1..]);
  }

  /** Where a chunk starts, as its consumer computes it from the reported end. */
  function ChunkStart(c: Chunk): int {
    c.end - ChunkSize(c)
  }

  /** A chunk that is one stretch of piece `p`, no longer than the scanner allows. */
  predicate CutFromPiece(s: Scanner, naming: Naming, p: Piece, c: Chunk) {
    && p.offset <= ChunkStart(c) < c.end <= p.End() && ChunkSize(c) <= s.chunkSize + s.overlap
    && c.blocks == [BlockAt(naming, p, ChunkStart(c), c.end - ChunkStart(c))]
  }

  lemma {:induction false} WindowIsCut(s: Scanner, naming: Naming, p: Piece, at: nat)
    requires s.chunkSize > 0 && p.offset <= at < p.End()
    ensures CutFromPiece(s, naming, p, Window(s, naming, p, at)) && ChunkStart(Window(s, naming, p, at)) == at
  {
    OneBlock(Window(s, naming, p, at).blocks[0], WindowEnd(s, p, at));
  }

  lemma {:induction false} WindowsAreCut(s: Scanner, naming: Naming, p: Piece, from: nat, c: Chunk)
    requires s.chunkSize > 0 && p.offset <= from && c in Windows(s, naming, p, from, p.End())
    ensures CutFromPiece(s, naming, p, c)
    decreases Max(0, p.End() - from)
  {
    WindowIsCut(s, naming, p, from);
    if c != Window(s, naming, p, from) {
      WindowsAreCut(s, naming, p, from + s.chunkSize, c);
    }
  }

  /** Every chunk is one stretch of one mapped piece: it never leaves mapped memory, is not
      too long, and its reported end gives its true start. */
  lemma {:induction false} ChunksAreCut(s: Scanner, naming: Naming, ps: seq<Piece>, n: nat, c: Chunk) returns (i: nat)
    requires s.chunkSize > 0 && n <= |ps| && c in AllWindows(s, naming, ps, n)
    ensures i < n && CutFromPiece(s, naming, ps[i], c)
  {
    if c in Windows(s, naming, ps[n - 1], ps[n - 1].offset, ps[n - 1].End()) {
      WindowsAreCut(s, naming, ps[n - 1], ps[n - 1].offset, c);
      i := n - 1;
    } else {
      i := ChunksAreCut(s, naming, ps, n - 1, c);
    }
  }

  /** A mapped piece gives one chunk each `chunkSize` bytes, from its first byte on, that reaches into
      the overlap or to the end of the piece. */
  lemma {:induction false} WindowStarts(s: Scanner, naming: Naming, p: Piece, from: nat, k: nat, at: nat)
    requires s.chunkSize > 0 && p.offset <= from && at == from + k * s.chunkSize
    ensures var ws := Windows(s, naming, p, from, p.End());
            && (k < |ws| <==> at < p.End())
            && (k < |ws| ==>
                  ChunkStart(ws[k]) == at && ws[k].end == Min(p.End(), at + s.chunkSize + s.overlap))
    decreases k
  {
    if from < p.End() {
      if k == 0 {
        WindowIsCut(s, naming, p, from);
      } else {
        assert k * s.chunkSize == (k - 1) * s.chunkSize + s.chunkSize;
        WindowStarts(s, naming, p, from + s.chunkSize, k - 1, at);
      }
    } else {
      MulNonNegative(k, s.chunkSize);
    }
  }

  lemma {:induction false} WindowsAscend(s: Scanner, naming: Naming, p: Piece, ws: seq<Chunk>, i: nat, j: nat)
    requires s.chunkSize > 0 && ws == Windows(s, naming, p, p.offset, p.End()) && i <= j < |ws|
    ensures p.offset <= ChunkStart(ws[i]) && (i < j ==> ChunkStart(ws[i]) < ChunkStart(ws[j]))
  {
    MultiplesAscend(i, j, s.chunkSize);
    WindowStarts(s, naming, p, p.offset, i, p.offset + i * s.chunkSize);
    WindowStarts(s, naming, p, p.offset, j, p.offset + j * s.chunkSize);
  }

  lemma {:induction false} MultiplesAscend(i: nat, j: nat, d: nat)
    requires d > 0 && i <= j
    ensures 0 <= i * d <= j * d && (i < j ==> i * d < j * d)
  {
    MulNonNegative(i, d);
    if i < j {
      MulAtLeast(j - i, d);
      assert j * d == i * d + (j - i) * d;
    }
  }

  /** The chunks come in the order of their addresses. */
  lemma {:induction false} ChunksAscend(s: Scanner, naming: Naming, ps: seq<Piece>, n: nat, ws: seq<Chunk>,
                                        i: nat, j: nat)
    requires s.chunkSize > 0 && Ascending(ps) && n <= |ps| && ws == AllWindows(s, naming, ps, n) && i < j < |ws|
    ensures ChunkStart(ws[i]) < ChunkStart(ws[j])
  {
    var p, front := ps[n - 1], AllWindows(s, naming, ps, n - 1);
    var last, m := Windows(s, naming, p, p.offset, p.End()), |front|;
    if j < m {
      ChunksAscend(s, naming, ps, n - 1, front, i, j);
    } else if i >= m {
      WindowsAscend(s, naming, p, last, i - m, j - m);
    } else {
      WindowsAscend(s, naming, p, last, j - m, j - m);
      FrontIsBefore(s, naming, ps, n, front, i);
    }
  }

  lemma {:induction false} FrontIsBefore(s: Scanner, naming: Naming, ps: seq<Piece>, n: nat, front: seq<Chunk>, i: nat)
    requires s.chunkSize > 0 && Ascending(ps) && 0 < n <= |ps| && front == AllWindows(s, naming, ps, n - 1)
    requires i < |front|
    ensures ChunkStart(front[i]) < ps[n - 1].offset
  {
    var q := ChunksAreCut(s, naming, ps, n - 1, front[i]);
    assert ps[q].End() <= ps[n - 1].offset;
  }

  // ---- the empty chunks ----

  /** There is a hole before some piece between `j` and `i`. */
  predicate HoleBetween(ps: seq<Piece>, j: nat, i: nat)
    requires i <= |ps|
  {
    exists k :: j < k < i && Gap(ps, k)
  }

  lemma {:induction false} HoleBetweenStep(ps: seq<Piece>, j: nat, i: nat)
    requires j < i <= |ps|
    ensures HoleBetween(ps, j, i) <==> j < i - 1 && (Gap(ps, i - 1) || HoleBetween(ps, j, i - 1))
  {
    if j < i - 1 && Gap(ps, i - 1) { assert j < i - 1 < i; }
  }

  lemma {:induction false} NothingFilledIff(ps: seq<Piece>, i: nat)
    requires i <= |ps|
    ensures NothingFilled(ps, i) <==> forall j :: 0 <= j < i && ps[j].length > 0 ==> HoleBetween(ps, j, i)
  {
    if i > 0 {
      NothingFilledIff(ps, i - 1);
      HoleBetweenStep(ps, i - 1, i);
      if NothingFilled(ps, i) {
        forall j | 0 <= j < i && ps[j].length > 0 ensures HoleBetween(ps, j, i) {
          HoleBetweenStep(ps, j, i);
        }
      } else if ps[i - 1].length == 0 {
        var j :| 0 <= j < i - 1 && ps[j].length > 0 && !HoleBetween(ps, j, i - 1);
        HoleBetweenStep(ps, j, i);
      }
    }
  }

  /** There is a hole before piece `i`, no byte was mapped since the hole before it, and the mapping
      has come to `end`. */
  predicate EmptyAt(ps: seq<Piece>, i: nat, end: nat)
    requires i < |ps|
  {
    && Gap(ps, i) && end == Reached(ps, i, 0)
    && forall j :: 0 <= j < i && ps[j].length > 0 ==> HoleBetween(ps, j, i)
  }

  lemma {:induction false} EmptyBeforeIff(ps: seq<Piece>, i: nat, end: nat)
    requires i < |ps|
    ensures Chunk([], end) in EmptyBefore(ps, i) <==> EmptyAt(ps, i, end)
  {
    NothingFilledIff(ps, i);
  }

  /** An empty chunk is yielded at a hole exactly if no byte was mapped since the hole before it; it
      ends where the mapping has come to. */
  lemma {:induction false} EmptyChunkIff(s: Scanner, naming: Naming, ps: seq<Piece>, n: nat, end: nat)
    requires s.chunkSize > 0 && n <= |ps|
    ensures Chunk([], end) in AllChunks(s, naming, ps, n) <==>
            exists i :: 0 <= i < n && EmptyAt(ps, i, end)
  {
    if n > 0 {
      var p, e := ps[n - 1], Chunk([], end);
      EmptyChunkIff(s, naming, ps, n - 1, end);
      EmptyBeforeIff(ps, n - 1, end);
      WindowsHaveBlocks(s, naming, p, p.offset, p.End());
      TurnDone(s, naming, ps, n - 1);
      assert e in AllChunks(s, naming, ps, n)
             <==> e in AllChunks(s, naming, ps, n - 1) || e in EmptyBefore(ps, n - 1);
    }
  }

  /** Over pieces with bytes that is one empty chunk, at the very start, if the first piece is not
      there. */
  lemma {:induction false} OneEmptyChunk(s: Scanner, naming: Naming, ps: seq<Piece>, n: nat)
    requires s.chunkSize > 0 && n <= |ps| && Positive(ps)
    ensures AllChunks(s, naming, ps, n)
            == (if n > 0 && ps[0].offset > 0 then [Chunk([], 0)] else []) + AllWindows(s, naming, ps, n)
  {
    if n > 0 {
      OneEmptyChunk(s, naming, ps, n - 1);
      TurnDone(s, naming, ps, n - 1);
      if n > 1 { assert !NothingFilled(ps, n - 1); }
    }
  }

  /** A run of bytes lies whole in a chunk and starts before the overlap. */
  predicate Holds(s: Scanner, c: Chunk, run: nat, length: nat) {
    ChunkStart(c) <= run < ChunkStart(c) + s.chunkSize && run + length <= c.end
  }

  lemma {:induction false} WindowHolds(s: Scanner, naming: Naming, p: Piece, from: nat, run: nat, length: nat)
    returns (c: Chunk)
    requires s.chunkSize > 0 && p.offset <= from <= run && run + length <= p.End() && 1 <= length <= s.overlap + 1
    ensures c in Windows(s, naming, p, from, p.End()) && Holds(s, c, run, length)
    decreases p.End() - from
  {
    if run < from + s.chunkSize {
      c := Window(s, naming, p, from);
      WindowIsCut(s, naming, p, from);
    } else {
      c := WindowHolds(s, naming, p, from + s.chunkSize, run, length);
    }
  }

  /** A run of at most `overlap + 1` bytes lies whole in some chunk, before its overlap,
      exactly when it lies in one mapped piece: the iterator never joins two pieces, even
      where one continues the other in the scanned layer. */
  lemma {:induction false} RunFoundIffInOnePiece(s: Scanner, naming: Naming, ps: seq<Piece>, run: nat, length: nat)
    requires s.chunkSize > 0 && 1 <= length <= s.overlap + 1
    ensures (exists c :: c in AllWindows(s, naming, ps, |ps|) && Holds(s, c, run, length))
            <==> (exists i :: 0 <= i < |ps| && ps[i].offset <= run && run + length <= ps[i].End())
  {
    if exists c :: c in AllWindows(s, naming, ps, |ps|) && Holds(s, c, run, length) {
      var c :| c in AllWindows(s, naming, ps, |ps|) && Holds(s, c, run, length);
      var i := ChunksAreCut(s, naming, ps, |ps|, c);
    }
    if exists i :: 0 <= i < |ps| && ps[i].offset <= run && run + length <= ps[i].End() {
      var i :| 0 <= i < |ps| && ps[i].offset <= run && run + length <= ps[i].End();
      var c := WindowHolds(s, naming, ps[i], ps[i].offset, run, length);
      WindowsInAll(s, naming, ps, |ps|, i, c);
    }
  }

  lemma {:induction false} WindowsInAll(s: Scanner, naming: Naming, ps: seq<Piece>, n: nat, i: nat, c: Chunk)
    requires s.chunkSize > 0 && i < n <= |ps| && c in Windows(s, naming, ps[i], ps[i].offset, ps[i].End())
    ensures c in AllWindows(s, naming, ps, n)
  {
    if i < n - 1 { WindowsInAll(s, naming, ps, n - 1, i, c); }
    assert AllWindows(s, naming, ps, n)
        == AllWindows(s, naming, ps, n - 1) + Windows(s, naming, ps[n - 1], ps[n - 1].offset, ps[n - 1].End());
  }

  /** Over linear pieces each chunk names, byte for byte, the places that the mapping gives the
      addresses it stands for. */
  lemma {:induction false} ChunkBytesArePlaced(s: Scanner, naming: Naming, ps: seq<Piece>, c: Chunk, a: nat)
    requires s.chunkSize > 0 && naming.linear && Ascending(ps) && c in AllWindows(s, naming, ps, |ps|)
    requires ChunkStart(c) <= a < c.end
    ensures |c.blocks| == 1 && c.blocks[0].size == c.end - ChunkStart(c)
    ensures Lookup(ps, a).Some? && Lookup(ps, a).value.layer == c.blocks[0].layer
    ensures Lookup(ps, a).value.address == c.blocks[0].address + (a - ChunkStart(c))
  {
    var i := ChunksAreCut(s, naming, ps, |ps|, c);
    LookupAt(ps, i, a);
  }

  /** Named in its own layer, a chunk is the stretch of addresses it stands for. */
  lemma {:induction false} ChunkNamesItself(s: Scanner, naming: Naming, ps: seq<Piece>, c: Chunk)
    requires s.chunkSize > 0 && !naming.linear && c in AllWindows(s, naming, ps, |ps|)
    ensures c.blocks == [Block(naming.self, ChunkStart(c), c.end - ChunkStart(c))]
  {
    var i := ChunksAreCut(s, naming, ps, |ps|, c);
  }

  // ---- layers that hold data ----

  /** How far the data iterator moves after a chunk of a section with `length` bytes left. */
  function Advance(s: Scanner, length: nat): int {
    var size := Min(length, s.chunkSize + s.overlap);
    if size > s.chunkSize then size - s.overlap else size
  }

  /** What is left of a section after `n` turns; zero or less ends it. */
  function LeftAfter(s: Scanner, length: int, n: nat): int
    decreases n
  {
    if n == 0 || length <= 0 then length else LeftAfter(s, length - Advance(s, length), n - 1)
  }

  function DataChunks(s: Scanner, layer: string, offset: nat, length: nat): seq<Chunk>
    requires s.chunkSize > 0 && (s.overlap <= s.chunkSize || length <= s.chunkSize)
    decreases length
  {
    if length == 0 then []
    else
      var size := Min(length, s.chunkSize + s.overlap);
      [Chunk([Block(layer, offset, size)], offset + size)]
      + DataChunks(s, layer, offset + Advance(s, length), length - Advance(s, length))
  }

  lemma {:induction false} DataStep(s: Scanner, layer: string, offset: nat, length: nat, chunks: seq<Chunk>)
    requires s.chunkSize > 0 && length > 0 && (s.overlap <= s.chunkSize || length <= s.chunkSize)
    ensures var size := Min(length, s.chunkSize + s.overlap);
            chunks + DataChunks(s, layer, offset, length)
            == chunks + [Chunk([Block(layer, offset, size)], offset + size)]
               + DataChunks(s, layer, offset + Advance(s, length), length - Advance(s, length))
  {
  }

  /** `_scan_iterator` of the layers that hold data, over one section. */
  method ScanData(s: Scanner, layer: string, start: nat, sectionLength: nat) returns (chunks: seq<Chunk>)
    requires s.chunkSize > 0 && (s.overlap <= s.chunkSize || sectionLength <= s.chunkSize)
    ensures chunks == DataChunks(s, layer, start, sectionLength)
  {
    chunks := [];
    var offset: nat, length: nat := start, sectionLength;
    while length > 0
      invariant s.overlap <= s.chunkSize || length <= s.chunkSize
      invariant chunks + DataChunks(s, layer, offset, length) == DataChunks(s, layer, start, sectionLength)
    {
      var size := Min(length, s.chunkSize + s.overlap);
      DataStep(s, layer, offset, length, chunks);
      chunks := chunks + [Chunk([Block(layer, offset, size)], offset + size)];
      if size > s.chunkSize {
        size := size - s.overlap;
      }
      length := length - size;
      offset := offset + size;
    }
    assert chunks + [] == chunks;
  }

  /** With an overlap longer than a chunk, a section longer than a chunk never ends. */
  lemma {:induction false} LongOverlapStays(s: Scanner, length: int, n: nat)
    requires 0 < s.chunkSize < s.overlap && length > s.chunkSize
    ensures LeftAfter(s, length, n) > s.chunkSize
    decreases n
  {
    if n > 0 { LongOverlapStays(s, length - Advance(s, length), n - 1); }
  }

  lemma {:induction false} ShortOverlapEnds(s: Scanner, length: int)
    requires s.chunkSize > 0 && (s.overlap <= s.chunkSize || length <= s.chunkSize)
    ensures exists n: nat :: LeftAfter(s, length, n) <= 0
    decreases Max(0, length)
  {
    if length > 0 {
      ShortOverlapEnds(s, length - Advance(s, length));
      var n: nat :| LeftAfter(s, length - Advance(s, length), n) <= 0;
      assert LeftAfter(s, length, n + 1) <= 0;
    } else {
      assert LeftAfter(s, length, 0) <= 0;
    }
  }

  /** The data iterator ends exactly when the overlap is no longer than a chunk or the
      section fits in one. */
  lemma {:induction false} EndsIff(s: Scanner, length: nat)
    requires s.chunkSize > 0
    ensures (exists n: nat :: LeftAfter(s, length, n) <= 0) <==> s.overlap <= s.chunkSize || length <= s.chunkSize
  {
    if s.overlap <= s.chunkSize || length <= s.chunkSize {
      ShortOverlapEnds(s, length);
    } else {
      forall n: nat ensures LeftAfter(s, length, n) > 0 {
        LongOverlapStays(s, length, n);
      }
    }
  }

  /** Every scanner whose overlap is longer than its chunks never ends on some section: the
      shortest one that does not fit in a chunk. */
  lemma {:induction false} LongOverlapHangs(s: Scanner, length: nat)
    requires 0 < s.chunkSize < s.overlap && length == s.chunkSize + 1
    ensures !exists n: nat :: LeftAfter(s, length, n) <= 0
  {
    EndsIff(s, length);
  }

  /** Every run of at most `overlap + 1` bytes of a section lies whole in some chunk and
      starts before its overlap. */
  lemma {:induction false} DataRunFound(s: Scanner, layer: string, offset: nat, length: nat, run: nat, size: nat)
    returns (c: Chunk)
    requires 0 < s.chunkSize && s.overlap <= s.chunkSize
    requires 1 <= size <= s.overlap + 1 && offset <= run && run + size <= offset + length
    ensures c in DataChunks(s, layer, offset, length) && Holds(s, c, run, size)
    decreases length
  {
    var first := DataChunks(s, layer, offset, length)[0];
    OneBlock(first.blocks[0], first.end);
    if run < offset + s.chunkSize {
      c := first;
    } else {
      c := DataRunFound(s, layer, offset + Advance(s, length), length - Advance(s, length), run, size);
    }
  }

  /** Every chunk is a stretch of the section, no longer than the scanner allows. */
  lemma {:induction false} DataChunksInside(s: Scanner, layer: string, offset: nat, length: nat, c: Chunk)
    requires s.chunkSize > 0 && (s.overlap <= s.chunkSize || length <= s.chunkSize)
    requires c in DataChunks(s, layer, offset, length)
    ensures offset <= ChunkStart(c) < c.end <= offset + length && ChunkSize(c) <= s.chunkSize + s.overlap
    ensures c.blocks == [Block(layer, ChunkStart(c), ChunkSize(c))]
    decreases length
  {
    var first := DataChunks(s, layer, offset, length)[0];
    OneBlock(first.blocks[0], first.end);
    if c != first {
      DataChunksInside(s, layer, offset + Advance(s, length), length - Advance(s, length), c);
    }
  }

  /** A chunk that reaches into the overlap, or to the end of the section. */
  predicate ReachesOverlap(s: Scanner, c: Chunk, end: nat) {
    c.end == Min(end, ChunkStart(c) + s.chunkSize + s.overlap)
  }

  /** `d` starts `overlap` bytes before the end of `c`. */
  predicate Overlaps(s: Scanner, c: Chunk, d: Chunk) {
    ChunkSize(c) >= s.chunkSize && ChunkStart(d) == c.end - s.overlap
  }

  /** The chunks lead from `offset` to `end`, each next one `overlap` bytes before the end of the one
      before it; what the last one adds fits in a chunk without overlap. */
  ghost predicate CutAlong(s: Scanner, cs: seq<Chunk>, offset: nat, end: nat) {
    && cs != [] && ChunkStart(cs[0]) == offset
    && cs[|cs| - 1].end == end && ChunkSize(cs[|cs| - 1]) <= s.chunkSize
    && (forall i :: 0 <= i < |cs| ==> ReachesOverlap(s, cs[i], end))
    && (forall i, j :: 0 <= i && j == i + 1 && j < |cs| ==> Overlaps(s, cs[i], cs[j]))
  }

  lemma {:induction false} CutAlongMore(s: Scanner, c: Chunk, cs: seq<Chunk>, offset: nat, next: nat, end: nat)
    requires CutAlong(s, cs, next, end) && ChunkStart(c) == offset && ReachesOverlap(s, c, end)
    requires ChunkSize(c) >= s.chunkSize && next == c.end - s.overlap
    ensures CutAlong(s, [c] + cs, offset, end)
  {
    var all := [c] + cs;
    assert all[|all| - 1] == cs[|cs| - 1];
    assert forall i :: 0 < i < |all| ==> all[i] == cs[i - 1];
  }

  /** The chunks of a section of a data layer are cut along it. */
  lemma {:induction false} DataChunksOverlap(s: Scanner, layer: string, offset: nat, length: nat)
    requires s.chunkSize > 0 && (s.overlap <= s.chunkSize || length <= s.chunkSize) && length > 0
    ensures CutAlong(s, DataChunks(s, layer, offset, length), offset, offset + length)
    decreases length
  {
    var size, step := Min(length, s.chunkSize + s.overlap), Advance(s, length);
    var first := Chunk([Block(layer, offset, size)], offset + size);
    OneBlock(first.blocks[0], first.end);
    if length > step {
      var next, left: nat := offset + step, length - step;
      var rest := DataChunks(s, layer, next, left);
      DataChunksOverlap(s, layer, next, left);
      CutAlongMore(s, first, rest, offset, next, offset + length);
      assert DataChunks(s, layer, offset, length) == [first] + rest;
    } else {
      assert DataChunks(s, layer, offset, length) == [first];
    }
  }
}
