/** `_mapping` of the Intel layers: cutting a request into page chunks, skipping
    the regions that do not translate. Stated over any paged translation into a
    buffer of `limit` bytes. */
module PageMapping {
  import opened Bits
  import opened Memory
  import opened PagedSpace
  import opened Pieces

  /** How far `_mapping` moves from `offset` past a failure with this skip mask. */
  function Skip(offset: nat, skipMask: nat): (diff: nat)
    ensures diff >= 1
  {
    skipMask + 1 - And(offset, skipMask)
  }

  /** The bytes from `offset` to the end of its page or of the request. */
  function ChunkSize(r: Translation, offset: nat, length: nat): (n: nat)
    requires length > 0
    ensures 1 <= n <= length
  {
    Min(Pow2(r.bits) - Low(offset, r.bits), length)
  }

  /** The address where a failure at `offset` makes `_mapping` resume. */
  function NextAfterFailure(tr: nat -> Translation, offset: nat, end: nat): (next: nat)
    requires offset < end
    ensures offset < next
  {
    var r := tr(offset);
    offset + Skip(offset, if r.Unmapped? then Pow2(r.bits) - 1 else ChunkSize(r, offset, end - offset) - 1)
  }

  /** The exception raised at `offset`: a page fault, or a chunk outside the buffer. */
  function Failure(tr: nat -> Translation, limit: nat, offset: nat, end: nat): Option<Error>
    requires offset < end
  {
    var r := tr(offset);
    if r.Unmapped? then Some(PagedInvalidAddress(r.bits, r.entry))
    else if !InBounds(limit, r.address, ChunkSize(r, offset, end - offset)) then Some(InvalidAddress(r.address))
    else None
  }

  function FirstPiece(tr: nat -> Translation, layer: string, offset: nat, end: nat): (p: Piece)
    requires offset < end && tr(offset).Page?
    ensures offset == p.offset < p.End() <= end
  {
    var r := tr(offset);
    var chunk := ChunkSize(r, offset, end - offset);
    Piece(offset, chunk, r.address, chunk, layer)
  }

  /** The pieces of the request `[offset, end)`. */
  function MapPages(tr: nat -> Translation, limit: nat, layer: string,
                    offset: nat, end: nat, ignoreErrors: bool): Mapping
    decreases end - offset
  {
    if end <= offset then Mapping([], None)
    else if Failure(tr, limit, offset, end).Some? then
      if !ignoreErrors then Mapping([], Failure(tr, limit, offset, end))
      else MapPages(tr, limit, layer, NextAfterFailure(tr, offset, end), end, ignoreErrors)
    else
      var p := FirstPiece(tr, layer, offset, end);
      var rest := MapPages(tr, limit, layer, p.End(), end, ignoreErrors);
      Mapping([p] + rest.pieces, rest.fault)
  }

  lemma MapPagesStep(tr: nat -> Translation, limit: nat, layer: string, offset: nat, end: nat, ignoreErrors: bool)
    requires offset < end
    ensures var f := Failure(tr, limit, offset, end);
            MapPages(tr, limit, layer, offset, end, ignoreErrors) ==
            if f.Some? && !ignoreErrors then Mapping([], f)
            else if f.Some? then MapPages(tr, limit, layer, NextAfterFailure(tr, offset, end), end, ignoreErrors)
            else
              var p := FirstPiece(tr, layer, offset, end);
              var rest := MapPages(tr, limit, layer, p.End(), end, ignoreErrors);
              Mapping([p] + rest.pieces, rest.fault)
  {
  }

  // ---- what a request covers, address by address ----

  /** The first address past the page, or the faulting region, of `a`. */
  function RegionEnd(tr: nat -> Translation, a: nat): (end: nat)
    ensures a < end
  {
    RegionStart(a, tr(a).bits) + Pow2(tr(a).bits)
  }

  /** The last address of the chunk of `a` in a request that ends before `end`. */
  function ChunkLast(tr: nat -> Translation, end: nat, a: nat): (last: nat)
    requires a < end
    ensures a <= last < end
  {
    Min(RegionEnd(tr, a), end) - 1
  }

  /** Where a request that starts at `start` first tries the page of `a`. */
  function FirstTry(tr: nat -> Translation, start: nat, a: nat): (first: nat)
    requires start <= a
    ensures start <= first <= a
  {
    Max(RegionStart(a, tr(a).bits), start)
  }

  /** The try, from `first` on, that maps `a`: the first one from which the buffer holds the
      rest of the page, or so much of it as the request reaches. */
  function TryThatMaps(tr: nat -> Translation, limit: nat, first: nat, end: nat, a: nat): (s: Option<nat>)
    requires a < end
    ensures s.Some? ==> first <= s.value <= a && tr(s.value).Page? && Failure(tr, limit, s.value, end).None?
    decreases Max(0, a + 1 - first)
  {
    if first > a || tr(first).Unmapped? then None
    else if Failure(tr, limit, first, end).None? then Some(first)
    else TryThatMaps(tr, limit, NextAfterFailure(tr, first, end), end, a)
  }

  /** Where the chunk that maps `a` in the request `[start, end)` starts. */
  function ChunkStart(tr: nat -> Translation, limit: nat, start: nat, end: nat, a: nat): (s: Option<nat>)
    requires start <= a < end
    ensures s.Some? ==> s.value <= a && tr(s.value).Page?
  {
    TryThatMaps(tr, limit, FirstTry(tr, start, a), end, a)
  }

  predicate Covered(tr: nat -> Translation, limit: nat, start: nat, end: nat, a: nat)
    requires start <= a < end
  {
    ChunkStart(tr, limit, start, end, a).Some?
  }

  ghost predicate AllCovered(tr: nat -> Translation, limit: nat, start: nat, end: nat) {
    forall a: nat :: start <= a < end ==> Covered(tr, limit, start, end, a)
  }

  /** Where `a` goes: as far behind the translation of the chunk's start as `a` is behind that start. */
  function Expected(tr: nat -> Translation, limit: nat, layer: string, start: nat, end: nat, a: nat): Option<Place>
    requires start <= a < end
  {
    var s := ChunkStart(tr, limit, start, end, a);
    if s.Some? then Some(Place(layer, tr(s.value).address + (a - s.value))) else None
  }

  /** A jump past a fault ends at the next region boundary, and every address it
      passes faults in the same way. */
  lemma {:induction false} SkipIsSafe(tr: nat -> Translation, offset: nat, b: nat)
    requires Paged(tr) && tr(offset).Unmapped?
    requires offset <= b < offset + Skip(offset, Pow2(tr(offset).bits) - 1)
    ensures tr(b) == tr(offset)
    ensures offset + Skip(offset, Pow2(tr(offset).bits) - 1) == RegionEnd(tr, offset)
  {
    AndLowMask(offset, tr(offset).bits);
    InRegion(offset, b, tr(offset).bits);
    assert Agree(tr, offset, b);
  }

  /** The addresses of a region have the same region and the same outcome. */
  lemma {:induction false} SamePage(tr: nat -> Translation, a: nat, b: nat)
    requires Paged(tr) && RegionStart(a, tr(a).bits) <= b < RegionEnd(tr, a)
    ensures SameOutcome(tr(a), tr(b)) && RegionEnd(tr, b) == RegionEnd(tr, a)
    ensures a <= b ==> FirstTry(tr, a, b) == a
  {
    InRegion(a, b, tr(a).bits);
    assert Agree(tr, a, b);
  }

  /** The regions of later addresses do not reach into a region. */
  lemma {:induction false} LaterPage(tr: nat -> Translation, offset: nat, a: nat)
    requires Paged(tr) && RegionEnd(tr, offset) <= a
    ensures RegionEnd(tr, offset) <= RegionStart(a, tr(a).bits)
  {
    var last := RegionEnd(tr, offset) - 1;
    if RegionStart(a, tr(a).bits) <= last {
      SamePage(tr, offset, last);
      SamePage(tr, a, last);
      assert false;
    }
  }

  /** Where the loop of `_mapping` goes on after its turn at `offset`. */
  function Next(tr: nat -> Translation, limit: nat, offset: nat, end: nat): (next: nat)
    requires offset < end
    ensures offset < next
  {
    if Failure(tr, limit, offset, end).Some? then NextAfterFailure(tr, offset, end)
    else offset + ChunkSize(tr(offset), offset, end - offset)
  }

  lemma {:induction false} NextInPage(tr: nat -> Translation, limit: nat, offset: nat, end: nat)
    requires Paged(tr) && offset < end
    ensures Next(tr, limit, offset, end) <= RegionEnd(tr, offset)
    ensures tr(offset).Unmapped? ==> Next(tr, limit, offset, end) == RegionEnd(tr, offset)
    ensures Failure(tr, limit, offset, end).None? ==> Next(tr, limit, offset, end) == Min(RegionEnd(tr, offset), end)
  {
    if tr(offset).Unmapped? { SkipIsSafe(tr, offset, offset); }
  }

  /** One turn of the loop maps the addresses it passes, or none of them. */
  lemma {:induction false} ExpectedNow(tr: nat -> Translation, limit: nat, layer: string, offset: nat, end: nat, a: nat)
    requires Paged(tr) && offset <= a < end && a < Next(tr, limit, offset, end)
    ensures Expected(tr, limit, layer, offset, end, a) ==
            if Failure(tr, limit, offset, end).Some? then None
            else Some(Place(layer, tr(offset).address + (a - offset)))
  {
    NextInPage(tr, limit, offset, end);
    SamePage(tr, offset, a);
  }

  /** What it does not pass is mapped as the rest of the request maps it. */
  lemma {:induction false} ExpectedLater(tr: nat -> Translation, limit: nat, layer: string, offset: nat, end: nat,
                                         a: nat)
    requires Paged(tr) && offset < end && Next(tr, limit, offset, end) <= a < end
    ensures Expected(tr, limit, layer, offset, end, a)
            == Expected(tr, limit, layer, Next(tr, limit, offset, end), end, a)
  {
    var next := Next(tr, limit, offset, end);
    NextInPage(tr, limit, offset, end);
    if a < RegionEnd(tr, offset) {
      SamePage(tr, offset, a);
      SamePage(tr, offset, next);
      SamePage(tr, next, a);
    } else {
      LaterPage(tr, offset, a);
    }
  }

  /** Ascending pieces inside the request and the buffer, that map exactly the covered
      addresses of `[start, end)`, each to where it is expected. */
  ghost predicate Exact(ps: seq<Piece>, tr: nat -> Translation, limit: nat, layer: string, start: nat, end: nat) {
    && Ascending(ps) && Within(ps, start, end) && Linear(ps) && PiecesInBounds(ps, limit)
    && forall a: nat :: start <= a < end ==> Lookup(ps, a) == Expected(tr, limit, layer, start, end, a)
  }

  lemma {:induction false} ExactAfterSkip(ps: seq<Piece>, tr: nat -> Translation, limit: nat, layer: string,
                                          offset: nat, end: nat)
    requires Paged(tr) && offset < end && Failure(tr, limit, offset, end).Some?
    requires var next := Next(tr, limit, offset, end);
             if next <= end then Exact(ps, tr, limit, layer, next, end) else ps == []
    ensures Exact(ps, tr, limit, layer, offset, end)
  {
    forall a: nat | offset <= a < end
      ensures Lookup(ps, a) == Expected(tr, limit, layer, offset, end, a)
    {
      if a < Next(tr, limit, offset, end) {
        ExpectedNow(tr, limit, layer, offset, end, a);
        LookupNone(ps, a);
      } else {
        ExpectedLater(tr, limit, layer, offset, end, a);
      }
    }
  }

  lemma {:induction false} ExactAfterPiece(ps: seq<Piece>, tr: nat -> Translation, limit: nat, layer: string,
                                           offset: nat, end: nat)
    requires Paged(tr) && offset < end && Failure(tr, limit, offset, end).None?
    requires Exact(ps, tr, limit, layer, Next(tr, limit, offset, end), end)
    ensures Exact([FirstPiece(tr, layer, offset, end)] + ps, tr, limit, layer, offset, end)
  {
    var p := FirstPiece(tr, layer, offset, end);
    ConsPiece(p, ps, end);
    forall a: nat | offset <= a < end
      ensures Lookup([p] + ps, a) == Expected(tr, limit, layer, offset, end, a)
    {
      if a < p.End() {
        ExpectedNow(tr, limit, layer, offset, end, a);
      } else {
        ExpectedLater(tr, limit, layer, offset, end, a);
      }
    }
  }

  /** With errors ignored, `MapPages` is exact, whatever the frames are. */
  lemma {:induction false} MapPagesExact(tr: nat -> Translation, limit: nat, layer: string, offset: nat, end: nat)
    requires Paged(tr) && offset <= end
    ensures var m := MapPages(tr, limit, layer, offset, end, true);
            m.fault == None && Exact(m.pieces, tr, limit, layer, offset, end)
    decreases end - offset
  {
    if offset < end {
      var next := Next(tr, limit, offset, end);
      MapPagesStep(tr, limit, layer, offset, end, true);
      if next <= end { MapPagesExact(tr, limit, layer, next, end); }
      var rest := MapPages(tr, limit, layer, next, end, true);
      if Failure(tr, limit, offset, end).Some? {
        ExactAfterSkip(rest.pieces, tr, limit, layer, offset, end);
      } else {
        ExactAfterPiece(rest.pieces, tr, limit, layer, offset, end);
      }
    }
  }

  /** After a piece the rest of a request is covered as on its own. */
  lemma {:induction false} CoveredLater(tr: nat -> Translation, limit: nat, layer: string, offset: nat, end: nat,
                                        next: nat)
    requires Paged(tr) && offset < end && Failure(tr, limit, offset, end).None? && next == Next(tr, limit, offset, end)
    ensures next <= end && forall a: nat :: offset <= a < next ==> Covered(tr, limit, offset, end, a)
    ensures forall a: nat :: next <= a < end ==>
              (Covered(tr, limit, offset, end, a) <==> Covered(tr, limit, next, end, a))
  {
    forall a: nat | offset <= a < next ensures Covered(tr, limit, offset, end, a) {
      ExpectedNow(tr, limit, layer, offset, end, a);
    }
    forall a: nat | next <= a < end
      ensures Covered(tr, limit, offset, end, a) <==> Covered(tr, limit, next, end, a)
    {
      ExpectedLater(tr, limit, layer, offset, end, a);
    }
  }

  /** Without ignoring errors, the mapping fails exactly when some address of the
      request is not covered; otherwise it is the mapping that ignores errors. */
  lemma {:induction false} StrictFailsIffUncovered(tr: nat -> Translation, limit: nat, layer: string,
                                                   offset: nat, end: nat)
    requires Paged(tr) && offset <= end
    ensures var m := MapPages(tr, limit, layer, offset, end, false);
            && (m.fault == None <==> AllCovered(tr, limit, offset, end))
            && (m.fault == None ==> m == MapPages(tr, limit, layer, offset, end, true))
    decreases end - offset
  {
    if offset < end {
      var next := Next(tr, limit, offset, end);
      MapPagesStep(tr, limit, layer, offset, end, false);
      MapPagesStep(tr, limit, layer, offset, end, true);
      if Failure(tr, limit, offset, end).Some? {
        ExpectedNow(tr, limit, layer, offset, end, offset);
        assert !Covered(tr, limit, offset, end, offset);
      } else {
        StrictFailsIffUncovered(tr, limit, layer, next, end);
        CoveredLater(tr, limit, layer, offset, end, next);
      }
    }
  }

  // ---- what a strict mapping yields before it fails ----

  /** The first address of the request that is not covered. */
  ghost predicate FirstUncovered(tr: nat -> Translation, limit: nat, start: nat, end: nat, stop: nat) {
    && start <= stop < end && !Covered(tr, limit, start, end, stop)
    && forall a: nat :: start <= a < stop ==> Covered(tr, limit, start, end, a)
  }

  /** The exception for an address: its page fault, or the place the buffer does not hold. */
  function FaultAt(tr: nat -> Translation, a: nat): Error {
    match tr(a)
    case Unmapped(entry, bits) => PagedInvalidAddress(bits, entry)
    case Page(_, _, address) => InvalidAddress(address)
  }

  /** A strict mapping that fails has mapped everything before the first address that is not
      covered, and raises the exception for that one. */
  lemma {:induction false} StrictStops(tr: nat -> Translation, limit: nat, layer: string, offset: nat, end: nat)
    returns (stop: nat)
    requires Paged(tr) && offset <= end && !AllCovered(tr, limit, offset, end)
    ensures FirstUncovered(tr, limit, offset, end, stop)
    ensures var m := MapPages(tr, limit, layer, offset, end, false);
            && m.fault == Some(FaultAt(tr, stop)) && Within(m.pieces, offset, stop)
            && forall a: nat :: offset <= a < stop ==> Lookup(m.pieces, a) == Expected(tr, limit, layer, offset, end, a)
    decreases end - offset
  {
    MapPagesStep(tr, limit, layer, offset, end, false);
    if Failure(tr, limit, offset, end).Some? {
      ExpectedNow(tr, limit, layer, offset, end, offset);
      stop := offset;
    } else {
      var next := Next(tr, limit, offset, end);
      CoveredLater(tr, limit, layer, offset, end, next);
      stop := StrictStops(tr, limit, layer, next, end);
      MapPagesShape(tr, limit, layer, next, end, false);
      MappedLater(MapPages(tr, limit, layer, next, end, false).pieces, tr, limit, layer, offset, end, next, stop);
    }
  }

  lemma {:induction false} MappedLater(ps: seq<Piece>, tr: nat -> Translation, limit: nat, layer: string, offset: nat,
                                       end: nat, next: nat, stop: nat)
    requires Paged(tr) && offset < end && Failure(tr, limit, offset, end).None? && next == Next(tr, limit, offset, end)
    requires Ascending(ps) && Within(ps, next, stop) && next <= stop < end
    requires forall a: nat :: next <= a < stop ==> Lookup(ps, a) == Expected(tr, limit, layer, next, end, a)
    ensures var all := [FirstPiece(tr, layer, offset, end)] + ps;
            && Within(all, offset, stop)
            && forall a: nat :: offset <= a < stop ==> Lookup(all, a) == Expected(tr, limit, layer, offset, end, a)
  {
    var p := FirstPiece(tr, layer, offset, end);
    ConsPiece(p, ps, stop);
    forall a: nat | offset <= a < stop
      ensures Lookup([p] + ps, a) == Expected(tr, limit, layer, offset, end, a)
    {
      if a < next {
        ExpectedNow(tr, limit, layer, offset, end, a);
      } else {
        ExpectedLater(tr, limit, layer, offset, end, a);
      }
    }
  }

  // ---- which try maps a page ----

  /** Where a page is tried at its start, or all of the request is covered, the first try decides. A failed
      try can move on inside a page only where the request starts inside it. */
  lemma {:induction false} FirstTryDecides(tr: nat -> Translation, limit: nat, start: nat, end: nat, a: nat)
    requires Paged(tr) && start <= a < end
    requires start <= RegionStart(a, tr(a).bits) || AllCovered(tr, limit, start, end)
    ensures var first := FirstTry(tr, start, a);
            ChunkStart(tr, limit, start, end, a)
            == if Failure(tr, limit, first, end).None? then Some(first) else None
  {
    var n, first := tr(a).bits, FirstTry(tr, start, a);
    if start <= RegionStart(a, n) {
      SamePage(tr, a, first);
      if tr(first).Page? && Failure(tr, limit, first, end).Some? {
        var chunk := ChunkSize(tr(first), first, end - first);
        AndAligned(Shr(a, n), chunk - 1, n);
      }
    } else {
      assert Covered(tr, limit, start, end, start);
      SamePage(tr, a, start);
    }
  }

  /** The buffer holds the place of every address of a page from the try that maps it on. */
  lemma {:induction false} TryReaches(tr: nat -> Translation, limit: nat, first: nat, end: nat, a: nat)
    requires Paged(tr) && first <= a < end && a < RegionEnd(tr, first)
    ensures var s := TryThatMaps(tr, limit, first, end, a);
            s.Some? ==> tr(s.value).address + (a - s.value) < limit
    decreases a - first
  {
    NextInPage(tr, limit, first, end);
    var next := Next(tr, limit, first, end);
    if Failure(tr, limit, first, end).Some? && next <= a {
      SamePage(tr, first, next);
      TryReaches(tr, limit, next, end, a);
    }
  }

  /** What is covered goes to a place in the buffer. */
  lemma {:induction false} CoveredInBuffer(tr: nat -> Translation, limit: nat, layer: string,
                                           start: nat, end: nat, a: nat)
    requires Paged(tr) && start <= a < end && Covered(tr, limit, start, end, a)
    ensures Expected(tr, limit, layer, start, end, a).value.address < limit
  {
    var first := FirstTry(tr, start, a);
    SamePage(tr, a, first);
    TryReaches(tr, limit, first, end, a);
  }

  /** Over an aligned frame an address goes where it translates to, and it is covered exactly if
      the last address of its chunk translates into the buffer. */
  lemma {:induction false} AlignedIsTranslated(tr: nat -> Translation, limit: nat, layer: string,
                                               start: nat, end: nat, a: nat)
    requires Paged(tr) && start <= a < end && FrameAligned(tr(a))
    ensures Covered(tr, limit, start, end, a)
            <==> tr(a).Page? && var last := tr(ChunkLast(tr, end, a)); last.Page? && last.address < limit
    ensures Covered(tr, limit, start, end, a)
            ==> Expected(tr, limit, layer, start, end, a) == Some(Place(layer, tr(a).address))
  {
    var n, first := tr(a).bits, FirstTry(tr, start, a);
    SamePage(tr, a, first);
    if tr(a).Page? {
      SamePage(tr, first, a);
      AlignedTries(tr, limit, first, end, a);
    }
  }

  /** Over an aligned frame every try of a page ends alike. */
  lemma {:induction false} AlignedTries(tr: nat -> Translation, limit: nat, first: nat, end: nat, a: nat)
    requires Paged(tr) && first <= a < end && a < RegionEnd(tr, first) && tr(first).Page? && FrameAligned(tr(first))
    ensures var last := tr(ChunkLast(tr, end, a));
            && last.Page? && tr(a).Page?
            && tr(a).address == tr(first).address + (a - first)
            && TryThatMaps(tr, limit, first, end, a) == if last.address < limit then Some(first) else None
    decreases a - first
  {
    SamePage(tr, first, a);
    ChunkIsLinear(tr, first, end, a);
    ChunkIsLinear(tr, first, end, ChunkLast(tr, end, a));
    NextInPage(tr, limit, first, end);
    var next := Next(tr, limit, first, end);
    if Failure(tr, limit, first, end).Some? && next <= a {
      SamePage(tr, first, next);
      AlignedTries(tr, limit, next, end, a);
    }
  }

  lemma {:induction false} ChunkIsLinear(tr: nat -> Translation, offset: nat, end: nat, b: nat)
    requires Paged(tr) && tr(offset).Page? && FrameAligned(tr(offset)) && offset < end
    requires offset <= b < offset + ChunkSize(tr(offset), offset, end - offset)
    ensures tr(b).Page? && tr(b).address == tr(offset).address + (b - offset)
  {
    LinearIffFrameAligned(tr, offset);
    var start := RegionStart(offset, tr(offset).bits);
    assert tr(offset).address == tr(start).address + (offset - start);
    assert tr(b).address == tr(start).address + (b - start);
  }

  /** From every translatable address, the rest of its page is inside the buffer. */
  ghost predicate FramesInBuffer(tr: nat -> Translation, limit: nat, offset: nat, end: nat) {
    forall a: nat {:trigger FrameRest(tr(a), a)} ::
      offset <= a < end && tr(a).Page? ==> tr(a).address + FrameRest(tr(a), a) <= limit
  }

  function FrameRest(r: Translation, a: nat): (n: nat)
    ensures n > 0
  {
    Pow2(r.bits) - Low(a, r.bits)
  }

  /** Over frames that are all present, aligned or not, the pieces cover exactly the
      translatable addresses of the request: no jump loses one. */
  lemma {:induction false} MapPagesCoversTranslatable(tr: nat -> Translation, limit: nat, layer: string,
                                                      offset: nat, end: nat, a: nat)
    requires Paged(tr) && FramesInBuffer(tr, limit, offset, end) && offset <= a < end
    ensures var m := MapPages(tr, limit, layer, offset, end, true);
            m.fault == None && (Lookup(m.pieces, a).Some? <==> tr(a).Page?)
    decreases end - offset
  {
    var next := NextAfterFailure(tr, offset, end);
    if tr(offset).Unmapped? {
      if a < next {
        SkipIsSafe(tr, offset, a);
        NothingBefore(tr, limit, layer, next, end, a);
      } else {
        MapPagesCoversTranslatable(tr, limit, layer, next, end, a);
      }
    } else {
      assert tr(offset).address + FrameRest(tr(offset), offset) <= limit;
      var p := FirstPiece(tr, layer, offset, end);
      var rest := MapPages(tr, limit, layer, p.End(), end, true);
      assert MapPages(tr, limit, layer, offset, end, true).pieces[1..] == rest.pieces;
      if a < p.End() {
        SamePage(tr, offset, a);
        NothingBefore(tr, limit, layer, p.End(), end, a);
      } else {
        MapPagesCoversTranslatable(tr, limit, layer, p.End(), end, a);
      }
    }
  }

  /** With errors ignored nothing is raised, and no piece starts before the request. */
  lemma {:induction false} NothingBefore(tr: nat -> Translation, limit: nat, layer: string,
                                         offset: nat, end: nat, a: nat)
    requires a < offset
    ensures var m := MapPages(tr, limit, layer, offset, end, true);
            m.fault == None && Lookup(m.pieces, a) == None
    decreases end - offset
  {
    if offset < end {
      if Failure(tr, limit, offset, end).Some? {
        NothingBefore(tr, limit, layer, NextAfterFailure(tr, offset, end), end, a);
      } else {
        var p := FirstPiece(tr, layer, offset, end);
        var rest := MapPages(tr, limit, layer, p.End(), end, true);
        assert ([p] + rest.pieces)[1..] == rest.pieces;
        NothingBefore(tr, limit, layer, p.End(), end, a);
      }
    }
  }

  /** Whatever the tables hold, the pieces ascend inside the request and the buffer. */
  lemma {:induction false} MapPagesShape(tr: nat -> Translation, limit: nat, layer: string,
                                         offset: nat, end: nat, ignoreErrors: bool)
    requires offset <= end
    ensures var ps := MapPages(tr, limit, layer, offset, end, ignoreErrors).pieces;
            Ascending(ps) && Within(ps, offset, end) && Linear(ps) && PiecesInBounds(ps, limit) && Positive(ps)
    decreases end - offset
  {
    if offset < end {
      MapPagesStep(tr, limit, layer, offset, end, ignoreErrors);
      if Failure(tr, limit, offset, end).Some? {
        if ignoreErrors && NextAfterFailure(tr, offset, end) <= end {
          MapPagesShape(tr, limit, layer, NextAfterFailure(tr, offset, end), end, ignoreErrors);
        }
      } else {
        var p := FirstPiece(tr, layer, offset, end);
        MapPagesShape(tr, limit, layer, p.End(), end, ignoreErrors);
        ConsPiece(p, MapPages(tr, limit, layer, p.End(), end, ignoreErrors).pieces, end);
      }
    }
  }
}
