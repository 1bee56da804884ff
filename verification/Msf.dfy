/** Streams of a multi-stream file: a stream is a list of pages, and reading it gives
    a part of the pages put together. */
module Msf {
  import opened Bits
  import opened LinearLayer
  import opened Memory
  import opened Pieces

  datatype Stream = Stream(pages: seq<nat>, pageSize: nat, layer: string)

  /** The page of byte `at` of the stream, and the place of the byte in it. */
  function PageOf(s: Stream, at: nat): nat
    requires s.pageSize > 0
  {
    at / s.pageSize
  }

  function PositionOf(s: Stream, at: nat): (r: nat)
    requires s.pageSize > 0
    ensures r < s.pageSize
  {
    at % s.pageSize
  }

  function ChunkSize(s: Stream, at: nat, length: nat): (n: nat)
    requires s.pageSize > 0
    ensures length > 0 ==> 0 < n <= length
    ensures PositionOf(s, at) + n <= s.pageSize
  {
    Min(s.pageSize - PositionOf(s, at), length)
  }

  function PieceAt(s: Stream, at: nat, n: nat): Piece
    requires s.pageSize > 0 && PageOf(s, at) < |s.pages|
  {
    Piece(at, n, s.pages[PageOf(s, at)] * s.pageSize + PositionOf(s, at), n, s.layer)
  }

  /** `mapping` from `at` on. Pages past the end of the list are errors, or left out. */
  function MapFrom(s: Stream, at: nat, length: nat, ignoreErrors: bool): Mapping
    requires s.pageSize > 0
    decreases length
  {
    if length == 0 then Mapping([], None)
    else
      var n := ChunkSize(s, at, length);
      if PageOf(s, at) < |s.pages| then
        var rest := MapFrom(s, at + n, length - n, ignoreErrors);
        Mapping([PieceAt(s, at, n)] + rest.pieces, rest.fault)
      else if ignoreErrors then MapFrom(s, at + n, length - n, ignoreErrors)
      else Mapping([], Some(InvalidAddress(at)))
  }

  lemma {:induction false} MapStep(s: Stream, pieces: seq<Piece>, at: nat, length: nat, ignoreErrors: bool)
    requires s.pageSize > 0 && length > 0
    ensures var m, n := MapFrom(s, at, length, ignoreErrors), ChunkSize(s, at, length);
            var rest := MapFrom(s, at + n, length - n, ignoreErrors);
            if PageOf(s, at) < |s.pages| then
              pieces + m.pieces == pieces + [PieceAt(s, at, n)] + rest.pieces && m.fault == rest.fault
            else if ignoreErrors then m == rest
            else m == Mapping([], Some(InvalidAddress(at)))
  {
    var n := ChunkSize(s, at, length);
    if PageOf(s, at) < |s.pages| {
      var rest := MapFrom(s, at + n, length - n, ignoreErrors);
      assert pieces + ([PieceAt(s, at, n)] + rest.pieces) == pieces + [PieceAt(s, at, n)] + rest.pieces;
    }
  }

  method MapStream(s: Stream, offset: nat, length: nat, ignoreErrors: bool) returns (m: Mapping)
    requires s.pageSize > 0
    ensures m == MapFrom(s, offset, length, ignoreErrors)
  {
    var returned: nat, left: nat, pieces: seq<Piece> := 0, length, [];
    ghost var goal := MapFrom(s, offset, length, ignoreErrors);
    ghost var rest := goal;
    while left > 0
      invariant returned + left == length && rest == MapFrom(s, offset + returned, left, ignoreErrors)
      invariant goal.pieces == pieces + rest.pieces && goal.fault == rest.fault
    {
      var at: nat := offset + returned;
      MapStep(s, pieces, at, left, ignoreErrors);
      var page, pagePosition := PageOf(s, at), PositionOf(s, at);
      var chunkSize := Min(s.pageSize - pagePosition, left);
      rest := MapFrom(s, at + chunkSize, left - chunkSize, ignoreErrors);
      if page >= |s.pages| {
        if !ignoreErrors {
          return Mapping(pieces, Some(InvalidAddress(at)));
        }
      } else {
        var p := Piece(at, chunkSize, s.pages[page] * s.pageSize + pagePosition, chunkSize, s.layer);
        assert p == PieceAt(s, at, chunkSize);
        pieces := pieces + [p];
      }
      assert at + chunkSize == offset + (returned + chunkSize);
      returned, left := returned + chunkSize, left - chunkSize;
    }
    return Mapping(pieces, None);
  }

  // ---- what the mapping shows ----

  /** Where byte `a` of the stream lies. */
  function StreamPlace(s: Stream, a: nat): Option<Place>
    requires s.pageSize > 0
  {
    if PageOf(s, a) < |s.pages| then Some(Place(s.layer, s.pages[PageOf(s, a)] * s.pageSize + PositionOf(s, a)))
        else None
  }

  lemma {:induction false} SamePage(size: nat, at: nat, a: nat)
    requires size > 0 && at <= a < at - at % size + size
    ensures a / size == at / size && a % size == at % size + (a - at)
  {
    DivModUnique(a, size, at / size, at % size + (a - at));
  }

  /** Where the piece of a chunk sends byte `a`, if its page exists. */
  function ChunkPlace(s: Stream, at: nat, n: nat, a: nat): Option<Place>
    requires s.pageSize > 0 && at <= a
  {
    if PageOf(s, at) < |s.pages| then Some(Place(s.layer, PieceAt(s, at, n).mappedOffset + (a - at))) else None
  }

  /** The bytes of one chunk lie in one page, one after the other. */
  lemma {:induction false} OnePage(s: Stream, at: nat, n: nat)
    requires s.pageSize > 0 && PositionOf(s, at) + n <= s.pageSize
    ensures forall a: nat :: at <= a < at + n ==>
              StreamPlace(s, a) == ChunkPlace(s, at, n, a)
  {
    forall a: nat | at <= a < at + n
      ensures StreamPlace(s, a) == ChunkPlace(s, at, n, a)
    {
      SamePage(s.pageSize, at, a);
    }
  }

  lemma {:induction false} LastPage(s: Stream, at: nat, length: nat)
    requires s.pageSize > 0 && length > 0
    ensures PageOf(s, at) <= PageOf(s, at + length - 1)
    ensures PositionOf(s, at) + length <= s.pageSize ==> PageOf(s, at) == PageOf(s, at + length - 1)
  {
    DivMono(at, at + length - 1, s.pageSize);
    if PositionOf(s, at) + length <= s.pageSize { SamePage(s.pageSize, at, at + length - 1); }
  }

  lemma {:induction false} DivMono(x: nat, y: nat, d: nat)
    requires d > 0 && x <= y
    ensures x / d <= y / d
  {
    var q, q' := x / d, y / d;
    assert x == q * d + x % d && y == q' * d + y % d;
    if q' < q {
      assert (q - q') * d == q * d - q' * d;
      MulAtLeast(q - q', d);
    }
  }

  lemma {:induction false} StrictFault(s: Stream, at: nat, length: nat, ignoreErrors: bool)
    requires s.pageSize > 0
    ensures MapFrom(s, at, length, ignoreErrors).fault == None
            <==> ignoreErrors || length == 0 || PageOf(s, at + length - 1) < |s.pages|
    decreases length
  {
    if length > 0 {
      var n := ChunkSize(s, at, length);
      StrictFault(s, at + n, length - n, ignoreErrors);
      LastPage(s, at, length);
    }
  }

  /** The pieces are cut at page boundaries: a piece ends where its page or the request does. */
  lemma {:induction false} PiecesArePages(s: Stream, at: nat, length: nat, ignoreErrors: bool)
    requires s.pageSize > 0
    ensures var ps := MapFrom(s, at, length, ignoreErrors).pieces;
            Positive(ps) && forall i :: 0 <= i < |ps| ==> EndsPage(s, ps[i], at, at + length)
    decreases length
  {
    if length > 0 {
      var n := ChunkSize(s, at, length);
      PiecesArePages(s, at + n, length - n, ignoreErrors);
      NextPageStarts(s, at, n, length);
    }
  }

  predicate EndsPage(s: Stream, p: Piece, start: nat, end: nat)
    requires s.pageSize > 0
  {
    && (p.offset == start || PositionOf(s, p.offset) == 0)
    && (p.End() == end || p.End() == p.offset - PositionOf(s, p.offset) + s.pageSize)
  }

  lemma {:induction false} NextPageStarts(s: Stream, at: nat, n: nat, length: nat)
    requires s.pageSize > 0 && length > 0 && n == ChunkSize(s, at, length)
    ensures n == length || PositionOf(s, at + n) == 0
  {
    if n < length { DivModUnique(at + n, s.pageSize, at / s.pageSize + 1, 0); }
  }

  /** Pieces in order, inside the request, that take each byte to its place. */
  ghost predicate Places(s: Stream, ps: seq<Piece>, at: nat, end: nat)
    requires s.pageSize > 0
  {
    && Ascending(ps) && Within(ps, at, end) && Linear(ps)
    && forall a: nat :: at <= a < end ==> Lookup(ps, a) == StreamPlace(s, a)
  }

  lemma {:induction false} PlacesPiece(s: Stream, ps: seq<Piece>, at: nat, next: nat, end: nat)
    requires s.pageSize > 0 && PageOf(s, at) < |s.pages| && at <= next <= end
    requires PositionOf(s, at) + (next - at) <= s.pageSize && Places(s, ps, next, end)
    ensures Places(s, [PieceAt(s, at, next - at)] + ps, at, end)
  {
    ConsPiece(PieceAt(s, at, next - at), ps, end);
    OnePage(s, at, next - at);
  }

  lemma {:induction false} PlacesSkip(s: Stream, ps: seq<Piece>, at: nat, next: nat, end: nat)
    requires s.pageSize > 0 && PageOf(s, at) >= |s.pages| && at <= next <= end
    requires PositionOf(s, at) + (next - at) <= s.pageSize && Places(s, ps, next, end)
    ensures Places(s, ps, at, end)
  {
    OnePage(s, at, next - at);
    forall a: nat | at <= a < next ensures Lookup(ps, a) == StreamPlace(s, a) {
      LookupNone(ps, a);
    }
  }

  /** A strict mapping that goes past the last page raises the exception for the first byte there. */
  lemma {:induction false} FaultIsFirstMissing(s: Stream, at: nat, length: nat) returns (x: nat)
    requires s.pageSize > 0 && MapFrom(s, at, length, false).fault.Some?
    ensures var m := MapFrom(s, at, length, false);
            m.fault == Some(InvalidAddress(x)) && FirstPast(s, at, length, x) && Places(s, m.pieces, at, x)
    decreases length
  {
    var n := ChunkSize(s, at, length);
    x := at;
    if PageOf(s, at) < |s.pages| {
      x := FaultIsFirstMissing(s, at + n, length - n);
      OnePage(s, at, n);
      forall a: nat | at <= a < x ensures StreamPlace(s, a).Some? {
        if a < at + n { assert StreamPlace(s, a) == ChunkPlace(s, at, n, a); }
      }
      PlacesPiece(s, MapFrom(s, at + n, length - n, false).pieces, at, at + n, x);
    }
  }

  /** `x` is the first byte of the request that is in no page. */
  ghost predicate FirstPast(s: Stream, at: nat, length: nat, x: nat)
    requires s.pageSize > 0
  {
    at <= x < at + length && StreamPlace(s, x) == None && forall a: nat :: at <= a < x ==> StreamPlace(s, a).Some?
  }

  /** Without a fault the pieces take each byte to its place; a strict mapping fails exactly
      when the request goes past the last page. */
  lemma {:induction false} MapMeaning(s: Stream, at: nat, length: nat, ignoreErrors: bool)
    requires s.pageSize > 0
    ensures var m := MapFrom(s, at, length, ignoreErrors);
            && Ascending(m.pieces) && Within(m.pieces, at, at + length) && Linear(m.pieces)
            && (m.fault == None <==> ignoreErrors || length == 0 || PageOf(s, at + length - 1) < |s.pages|)
            && (m.fault == None ==> Places(s, m.pieces, at, at + length))
    decreases length
  {
    StrictFault(s, at, length, ignoreErrors);
    if length > 0 {
      var n := ChunkSize(s, at, length);
      var next, end := at + n, at + length;
      var rest := MapFrom(s, next, length - n, ignoreErrors);
      MapMeaning(s, next, length - n, ignoreErrors);
      if PageOf(s, at) < |s.pages| {
        ConsPiece(PieceAt(s, at, n), rest.pieces, end);
        if rest.fault == None { PlacesPiece(s, rest.pieces, at, next, end); }
      } else if ignoreErrors {
        PlacesSkip(s, rest.pieces, at, next, end);
      }
    }
  }

  // ---- reading ----

  /** Every page of the stream lies in the file. */
  ghost predicate InFile(s: Stream, size: nat) {
    forall i :: 0 <= i < |s.pages| ==> s.pages[i] * s.pageSize + s.pageSize <= size
  }

  /** The length of the first `n` pages. */
  function Length(s: Stream, n: nat): nat {
    if n == 0 then 0 else Length(s, n - 1) + s.pageSize
  }

  /** The bytes of page `i` of the stream. */
  function PageBytes(s: Stream, mem: seq<byte>, i: nat): (page: seq<byte>)
    requires i < |s.pages| && InFile(s, |mem|)
    ensures |page| == s.pageSize
  {
    var at := s.pages[i] * s.pageSize;
    mem[at..at + s.pageSize]
  }

  /** The first `n` pages of the stream put together. */
  function Contents(s: Stream, mem: seq<byte>, n: nat): (c: seq<byte>)
    requires n <= |s.pages| && InFile(s, |mem|)
    ensures |c| == Length(s, n)
  {
    if n == 0 then [] else Contents(s, mem, n - 1) + PageBytes(s, mem, n - 1)
  }

  lemma {:induction false} LengthIsProduct(s: Stream, n: nat)
    ensures Length(s, n) == n * s.pageSize
  {
    if n > 0 {
      LengthIsProduct(s, n - 1);
      assert n * s.pageSize == (n - 1) * s.pageSize + s.pageSize;
    }
  }

  lemma {:induction false} InPages(s: Stream, a: nat, n: nat)
    requires s.pageSize > 0
    ensures a < Length(s, n) <==> PageOf(s, a) < n
  {
    var q, r := PageOf(s, a), PositionOf(s, a);
    LengthIsProduct(s, n);
    assert a == q * s.pageSize + r;
    if q < n {
      SlotFits(q, n, s.pageSize);
    } else {
      MulNonNegative(q - n, s.pageSize);
      assert (q - n) * s.pageSize == q * s.pageSize - n * s.pageSize;
    }
  }

  lemma {:induction false} ConcatAt(front: seq<byte>, back: seq<byte>, a: nat, k: nat)
    requires a < |front| || (a == |front| + k && k < |back|)
    ensures (front + back)[a] == if a < |front| then front[a] else back[k]
  {
  }

  /** Byte `r` of page `q` among the first `n` pages. */
  lemma {:induction false} PageByte(s: Stream, mem: seq<byte>, n: nat, q: nat, r: nat, a: nat)
    requires q < n <= |s.pages| && InFile(s, |mem|) && r < s.pageSize && a == Length(s, q) + r
    ensures a < Length(s, n) && Contents(s, mem, n)[a] == PageBytes(s, mem, q)[r]
  {
    var front, back := Contents(s, mem, n - 1), PageBytes(s, mem, n - 1);
    if q < n - 1 { PageByte(s, mem, n - 1, q, r, a); }
    ConcatAt(front, back, a, r);
  }

  lemma {:induction false} ContentsAt(s: Stream, mem: seq<byte>, n: nat, a: nat)
    requires s.pageSize > 0 && n <= |s.pages| && InFile(s, |mem|) && PageOf(s, a) < n
    ensures a < Length(s, n) && s.pages[PageOf(s, a)] * s.pageSize + PositionOf(s, a) < |mem|
    ensures Contents(s, mem, n)[a] == mem[s.pages[PageOf(s, a)] * s.pageSize + PositionOf(s, a)]
  {
    var q, r := PageOf(s, a), PositionOf(s, a);
    LengthIsProduct(s, q);
    PageByte(s, mem, n, q, r, a);
  }

  lemma {:induction false} PiecesFit(s: Stream, size: nat, at: nat, length: nat, ignoreErrors: bool)
    requires s.pageSize > 0 && InFile(s, size)
    ensures PiecesInBounds(MapFrom(s, at, length, ignoreErrors).pieces, size)
    decreases length
  {
    if length > 0 {
      var n := ChunkSize(s, at, length);
      PiecesFit(s, size, at + n, length - n, ignoreErrors);
    }
  }

  /** The byte of the stream at `a`; zero past its end. */
  function StreamByte(s: Stream, mem: seq<byte>, a: nat): byte
    requires InFile(s, |mem|)
  {
    var c := Contents(s, mem, |s.pages|);
    if a < |c| then c[a] else 0
  }

  lemma {:induction false} ShownByte(s: Stream, mem: seq<byte>, ps: seq<Piece>, a: nat)
    requires s.pageSize > 0 && InFile(s, |mem|) && Lookup(ps, a) == StreamPlace(s, a)
    ensures ByteAt(ps, mem, a) == StreamByte(s, mem, a)
  {
    InPages(s, a, |s.pages|);
    if PageOf(s, a) < |s.pages| { ContentsAt(s, mem, |s.pages|, a); }
  }

  /** What a mapping that takes the bytes to their places shows. */
  lemma {:induction false} PlacesShow(s: Stream, mem: seq<byte>, ps: seq<Piece>, offset: nat, length: nat)
    requires s.pageSize > 0 && InFile(s, |mem|) && Places(s, ps, offset, offset + length)
    ensures forall a: nat :: offset <= a < offset + length ==> ByteAt(ps, mem, a) == StreamByte(s, mem, a)
  {
    forall a: nat | offset <= a < offset + length ensures ByteAt(ps, mem, a) == StreamByte(s, mem, a) {
      ShownByte(s, mem, ps, a);
    }
  }

  /** The pieces before a fault are read, so a read fails with the fault. */
  lemma {:induction false} StrictReadFails(s: Stream, mem: seq<byte>, offset: nat, length: nat, error: Error)
    requires s.pageSize > 0 && InFile(s, |mem|) && MapFrom(s, offset, length, false).fault.Some?
    requires exists n :: FailsAt(MapFrom(s, offset, length, false), mem, offset, false, n, error)
    ensures exists x: nat :: FirstPast(s, offset, length, x) && error == InvalidAddress(x)
  {
    var m := MapFrom(s, offset, length, false);
    var x := FaultIsFirstMissing(s, offset, length);
    PiecesFit(s, |mem|, offset, length, false);
    CoveringIsContiguous(m.pieces, offset, x);
    FailsWithFault(m, mem, offset, false, error);
  }

  lemma {:induction false} StrictIsContiguous(s: Stream, offset: nat, length: nat)
    requires s.pageSize > 0
    ensures var m := MapFrom(s, offset, length, false); m.fault == None ==> Contiguous(m.pieces, offset)
  {
    var m := MapFrom(s, offset, length, false);
    MapMeaning(s, offset, length, false);
    if m.fault == None {
      AllPlaced(s, offset, length, m.pieces);
      CoveringIsContiguous(m.pieces, offset, offset + length);
    }
  }

  lemma {:induction false} MappingIsRead(s: Stream, mem: seq<byte>, offset: nat, length: nat, pad: bool)
    requires s.pageSize > 0 && InFile(s, |mem|)
    ensures var m := MapFrom(s, offset, length, pad);
            && Ascending(m.pieces) && Within(m.pieces, offset, offset + length) && Linear(m.pieces)
            && AllReadable(m.pieces, mem)
            && (m.fault == None <==> pad || length == 0 || offset + length <= |Contents(s, mem, |s.pages|)|)
            && (m.fault == None && !pad ==> Contiguous(m.pieces, offset))
            && (m.fault == None ==>
                  forall a: nat :: offset <= a < offset + length ==> ByteAt(m.pieces, mem, a) == StreamByte(s, mem, a))
  {
    var m := MapFrom(s, offset, length, pad);
    MapMeaning(s, offset, length, pad);
    PiecesFit(s, |mem|, offset, length, pad);
    if length > 0 { InPages(s, offset + length - 1, |s.pages|); }
    if !pad { StrictIsContiguous(s, offset, length); }
    if m.fault == None { PlacesShow(s, mem, m.pieces, offset, length); }
  }

  /** `read`: the part of the concatenated pages that was asked for. A strict read fails
      exactly when it goes past their end, with the exception for the first byte there. */
  method ReadStream(base: BufferDataLayer, s: Stream, offset: nat, length: nat, pad: bool)
    returns (r: Result<seq<byte>>)
    requires s.pageSize > 0 && InFile(s, |base.buffer|)
    ensures r.Ok? <==> pad || length == 0 || offset + length <= |Contents(s, base.buffer, |s.pages|)|
    ensures r.Ok? ==> |r.value| == length
    ensures r.Ok? ==> forall k :: 0 <= k < length ==> r.value[k] == StreamByte(s, base.buffer, offset + k)
    ensures r.Err? ==> exists x: nat :: FirstPast(s, offset, length, x) && r.error == InvalidAddress(x)
  {
    var m := MapStream(s, offset, length, pad);
    MappingIsRead(s, base.buffer, offset, length, pad);
    r := Read(base, m, offset, length, pad);
    if r.Err? { StrictReadFails(s, base.buffer, offset, length, r.error); }
  }

  lemma {:induction false} AllPlaced(s: Stream, offset: nat, length: nat, ps: seq<Piece>)
    requires s.pageSize > 0 && (length > 0 ==> PageOf(s, offset + length - 1) < |s.pages|)
    requires forall a: nat :: offset <= a < offset + length ==> Lookup(ps, a) == StreamPlace(s, a)
    ensures forall a :: offset <= a < offset + length ==> Lookup(ps, a).Some?
  {
    forall a | offset <= a < offset + length ensures Lookup(ps, a).Some? {
      DivMono(a, offset + length - 1, s.pageSize);
    }
  }
}
