/** The Intel translation layer over a buffer: the cached walk, `_mapping`,
    `mapping`, `is_valid` and `read`, each against its specification. */
module IntelLayer {
  import opened Bits
  import opened Coalescing
  import LinearLayer
  import opened Memory
  import opened PagedSpace
  import opened PageMapping
  import opened PageTables
  import opened Pieces

  /** `_mapping`: an empty request only probes the address it names. */
  function RawMapping(tr: nat -> Translation, limit: nat, layer: string,
                      offset: nat, length: nat, ignoreErrors: bool): Mapping
  {
    if length > 0 then MapPages(tr, limit, layer, offset, offset + length, ignoreErrors)
    else
      var r := tr(offset);
      if r.Page? && InBounds(limit, r.address, 1) then
        Mapping([Piece(offset, 0, r.address, 0, layer)], None)
      else if ignoreErrors then Mapping([], None)
      else Mapping([], Some(if r.Page? then InvalidAddress(r.address) else PagedInvalidAddress(r.bits, r.entry)))
  }

  /** `mapping` as a function: the joined runs of `_mapping`. */
  function RunMapping(tr: nat -> Translation, limit: nat, layer: string,
                      offset: nat, length: nat, ignoreErrors: bool): Mapping
  {
    CoalesceMapping(RawMapping(tr, limit, layer, offset, length, ignoreErrors))
  }

  lemma {:induction false} RunsShape(tr: nat -> Translation, limit: nat, layer: string, offset: nat, length: nat,
                                     ignoreErrors: bool)
    ensures var ps := RunMapping(tr, limit, layer, offset, length, ignoreErrors).pieces;
            && Ascending(ps) && Within(ps, offset, offset + length) && Linear(ps) && PiecesInBounds(ps, limit)
            && Maximal(ps) && (length > 0 ==> Positive(ps))
  {
    if length > 0 {
      MapPagesShape(tr, limit, layer, offset, offset + length, ignoreErrors);
      CoalesceMappingShape(RawMapping(tr, limit, layer, offset, length, ignoreErrors), offset, offset + length, limit);
    }
  }

  lemma {:induction false} OneByte(tr: nat -> Translation, limit: nat, offset: nat)
    requires Paged(tr)
    ensures AllCovered(tr, limit, offset, offset + 1) <==> tr(offset).Page? && InBounds(limit, tr(offset).address, 1)
  {
    SamePage(tr, offset, offset);
    assert Covered(tr, limit, offset, offset + 1, offset)
           <==> tr(offset).Page? && InBounds(limit, tr(offset).address, 1);
  }

  /** The joined runs map exactly the covered addresses of the request; without ignoring errors
      they exist exactly when all are covered. An empty request is tested like one byte. */
  lemma {:induction false} RunsMeaning(tr: nat -> Translation, limit: nat, layer: string,
                                       offset: nat, length: nat, ignoreErrors: bool)
    requires Paged(tr)
    ensures var m, end := RunMapping(tr, limit, layer, offset, length, ignoreErrors), offset + length;
            && (m.fault == None <==> ignoreErrors || AllCovered(tr, limit, offset, offset + Max(length, 1)))
            && (m.fault == None ==>
                  forall a: nat :: offset <= a < end
                      ==> Lookup(m.pieces, a) == Expected(tr, limit, layer, offset, end, a))
  {
    var end := offset + length;
    if length == 0 {
      OneByte(tr, limit, offset);
    } else {
      MapPagesExact(tr, limit, layer, offset, end);
      StrictFailsIffUncovered(tr, limit, layer, offset, end);
      var raw := RawMapping(tr, limit, layer, offset, length, ignoreErrors);
      if raw.fault == None {
        forall a: nat | offset <= a < end
          ensures Lookup(Coalesce(raw.pieces), a) == Expected(tr, limit, layer, offset, end, a)
        {
          CoalesceMeaning(raw.pieces, a);
        }
      }
    }
  }

  /** An empty request gives one empty piece where the address goes, if the buffer holds that byte;
      it is what `translate` asks for. */
  lemma {:induction false} TranslateMeaning(tr: nat -> Translation, limit: nat, layer: string,
                                            offset: nat, ignoreErrors: bool)
    requires Paged(tr)
    ensures var m := RunMapping(tr, limit, layer, offset, 0, ignoreErrors);
            if Covered(tr, limit, offset, offset + 1, offset)
            then m.fault == None && |m.pieces| == 1 && var p := m.pieces[0];
                 && p.offset == offset && p.length == p.mappedLength == 0
                 && Some(Place(p.layer, p.mappedOffset)) == Expected(tr, limit, layer, offset, offset + 1, offset)
            else m.pieces == [] && m.fault == if ignoreErrors then None else Some(FaultAt(tr, offset))
    ensures Covered(tr, limit, offset, offset + 1, offset) <==> tr(offset).Page? && tr(offset).address < limit
    ensures Covered(tr, limit, offset, offset + 1, offset) ==>
              Expected(tr, limit, layer, offset, offset + 1, offset) == Some(Place(layer, tr(offset).address))
  {
    OneByte(tr, limit, offset);
    SamePage(tr, offset, offset);
    assert Covered(tr, limit, offset, offset + 1, offset) <==> AllCovered(tr, limit, offset, offset + 1);
  }

  // ---- what a strict mapping yields before its exception ----

  /** The next address of the request goes right behind `a`. */
  predicate Joined(tr: nat -> Translation, limit: nat, start: nat, end: nat, a: nat)
    requires start <= a && a + 1 < end
  {
    var p, q := Expected(tr, limit, "", start, end, a), Expected(tr, limit, "", start, end, a + 1);
    p.Some? && q.Some? && q.value.address == p.value.address + 1
  }

  /** The run that ends before `stop` starts at `last`; it is empty if nothing is mapped before `stop`. */
  ghost predicate LastRun(tr: nat -> Translation, limit: nat, start: nat, end: nat, last: nat, stop: nat) {
    && start <= last <= stop < end && (last == stop ==> stop == start)
    && (forall a: nat :: last <= a < stop - 1 ==> Joined(tr, limit, start, end, a))
    && (start < last ==> !Joined(tr, limit, start, end, last - 1))
  }

  lemma {:induction false} LayerOfPlace(tr: nat -> Translation, limit: nat, layer: string, start: nat, end: nat, a: nat)
    requires start <= a < end
    ensures var p, q := Expected(tr, limit, layer, start, end, a), Expected(tr, limit, "", start, end, a);
            (p.Some? <==> q.Some?) && (p.Some? ==> p.value == Place(layer, q.value.address))
  {
  }

  lemma {:induction false} JoinedIff(cs: seq<Piece>, tr: nat -> Translation, limit: nat, layer: string,
                                     start: nat, end: nat, a: nat)
    requires start <= a && a + 1 < end && Lookup(cs, a).Some? && Lookup(cs, a + 1).Some?
    requires Lookup(cs, a) == Expected(tr, limit, layer, start, end, a)
    requires Lookup(cs, a + 1) == Expected(tr, limit, layer, start, end, a + 1)
    ensures Joined(tr, limit, start, end, a)
            <==> Lookup(cs, a + 1).value.address == Lookup(cs, a).value.address + 1
    ensures Lookup(cs, a).value.layer == Lookup(cs, a + 1).value.layer
  {
    LayerOfPlace(tr, limit, layer, start, end, a);
    LayerOfPlace(tr, limit, layer, start, end, a + 1);
  }

  /** Where one maximal run ends and the next starts, the places do not follow each other. */
  lemma {:induction false} NotContinued(p: Piece, q: Piece, cs: seq<Piece>, i: nat, a: nat)
    requires Ascending(cs) && Positive(cs) && Linear(cs) && Maximal(cs) && i + 1 < |cs|
    requires p == cs[i] && q == cs[i + 1] && p.End() == q.offset == a
    ensures Lookup(cs, a - 1).Some? && Lookup(cs, a).Some?
    ensures Lookup(cs, a - 1).value.layer == Lookup(cs, a).value.layer
            ==> Lookup(cs, a).value.address != Lookup(cs, a - 1).value.address + 1
  {
    LookupAt(cs, i, a - 1);
    LookupAt(cs, i + 1, a);
    assert !Continues(cs[i], cs[i + 1]);
  }

  lemma {:induction false} EndsAtStop(cs: seq<Piece>, start: nat, stop: nat)
    requires cs != [] && Ascending(cs) && Within(cs, start, stop) && Positive(cs)
    requires forall a: nat {:trigger Lookup(cs, a)} :: start <= a < stop ==> Lookup(cs, a).Some?
    ensures cs[|cs| - 1].End() == stop
  {
    var n := |cs| - 1;
    assert forall i :: 0 <= i < n ==> cs[i].End() <= cs[n].offset;
    var i := LookupSome(cs, stop - 1);
  }

  /** The run before the last one ends where the last one starts. */
  lemma {:induction false} RunBefore(cs: seq<Piece>, start: nat, stop: nat)
    requires cs != [] && Ascending(cs) && Within(cs, start, stop) && Positive(cs) && start < cs[|cs| - 1].offset
    requires forall a: nat {:trigger Lookup(cs, a)} :: start <= a < stop ==> Lookup(cs, a).Some?
    ensures |cs| >= 2 && cs[|cs| - 2].End() == cs[|cs| - 1].offset
  {
    var n := |cs| - 1;
    var i := LookupSome(cs, cs[n].offset - 1);
    assert forall j :: 0 <= j < n - 1 ==> cs[j].End() <= cs[n - 1].offset;
    assert n > 0 ==> cs[n - 1].End() <= cs[n].offset;
  }

  /** The pieces send every address of the request before `stop` to its place. */
  ghost predicate PlacesUpTo(cs: seq<Piece>, tr: nat -> Translation, limit: nat, layer: string,
                             start: nat, end: nat, stop: nat)
    requires stop <= end
  {
    forall a: nat {:trigger Lookup(cs, a)} :: start <= a < stop ==>
      Lookup(cs, a).Some? && Lookup(cs, a) == Expected(tr, limit, layer, start, end, a)
  }

  lemma {:induction false} JoinedInside(cs: seq<Piece>, tr: nat -> Translation, limit: nat, layer: string,
                                        start: nat, end: nat, stop: nat, i: nat, a: nat)
    requires Ascending(cs) && start <= a && a + 1 < stop <= end && PlacesUpTo(cs, tr, limit, layer, start, end, stop)
    requires i < |cs| && cs[i].Contains(a) && cs[i].Contains(a + 1)
    ensures Joined(tr, limit, start, end, a)
  {
    LookupAt(cs, i, a);
    LookupAt(cs, i, a + 1);
    JoinedIff(cs, tr, limit, layer, start, end, a);
  }

  lemma {:induction false} NotJoinedBetween(cs: seq<Piece>, tr: nat -> Translation, limit: nat, layer: string,
                                            start: nat, end: nat, stop: nat, i: nat, a: nat)
    requires Ascending(cs) && Positive(cs) && Linear(cs) && Maximal(cs) && i + 1 < |cs|
    requires start <= a && a + 1 < stop <= end && PlacesUpTo(cs, tr, limit, layer, start, end, stop)
    requires cs[i].End() == cs[i + 1].offset == a + 1
    ensures !Joined(tr, limit, start, end, a)
  {
    NotContinued(cs[i], cs[i + 1], cs, i, a + 1);
    JoinedIff(cs, tr, limit, layer, start, end, a);
  }

  /** The last of some maximal runs that cover a request up to `stop` is its last run there. */
  lemma {:induction false} LastOfRuns(cs: seq<Piece>, tr: nat -> Translation, limit: nat, layer: string,
                                      start: nat, end: nat, stop: nat, last: nat)
    requires cs != [] && Ascending(cs) && Within(cs, start, stop) && Positive(cs) && Linear(cs) && Maximal(cs)
    requires stop < end && PlacesUpTo(cs, tr, limit, layer, start, end, stop) && last == cs[|cs| - 1].offset
    ensures LastRun(tr, limit, start, end, last, stop)
  {
    var n := |cs| - 1;
    EndsAtStop(cs, start, stop);
    forall a: nat | last <= a < stop - 1 ensures Joined(tr, limit, start, end, a) {
      JoinedInside(cs, tr, limit, layer, start, end, stop, n, a);
    }
    if start < last {
      RunBefore(cs, start, stop);
      NotJoinedBetween(cs, tr, limit, layer, start, end, stop, n - 1, last - 1);
    }
  }

  /** A strict mapping that fails has yielded the runs before its last one: up to where that run
      starts every address goes to its place, and from there on nothing is mapped, although the
      addresses up to `stop`, where the exception comes from, are covered. */
  lemma {:induction false} RunsBeforeFault(tr: nat -> Translation, limit: nat, layer: string, offset: nat, length: nat)
    returns (last: nat, stop: nat)
    requires Paged(tr) && !AllCovered(tr, limit, offset, offset + length)
    ensures FirstUncovered(tr, limit, offset, offset + length, stop)
    ensures LastRun(tr, limit, offset, offset + length, last, stop)
    ensures var m := RunMapping(tr, limit, layer, offset, length, false);
            && m.fault == Some(FaultAt(tr, stop)) && Within(m.pieces, offset, last)
            && forall a: nat :: offset <= a < offset + length ==>
                 Lookup(m.pieces, a)
                 == if a < last then Expected(tr, limit, layer, offset, offset + length, a) else None
  {
    var end := offset + length;
    stop := StrictStops(tr, limit, layer, offset, end);
    var raw := MapPages(tr, limit, layer, offset, end, false);
    var cs := Coalesce(raw.pieces);
    MapPagesShape(tr, limit, layer, offset, end, false);
    CoalesceShape(raw.pieces, offset, stop, limit);
    CoalesceMeaning(raw.pieces, 0);
    forall a: nat | offset <= a < stop
      ensures Lookup(cs, a).Some? && Lookup(cs, a) == Expected(tr, limit, layer, offset, end, a)
    {
      assert Covered(tr, limit, offset, end, a);
      CoalesceMeaning(raw.pieces, a);
    }
    assert stop > offset ==> Lookup(cs, stop - 1).Some?;
    last := offset;
    if cs != [] {
      last := cs[|cs| - 1].offset;
      LastOfRuns(cs, tr, limit, layer, offset, end, stop, last);
      WithoutLast(cs, offset, stop);
    }
  }

  lemma {:induction false} WithoutLast(cs: seq<Piece>, start: nat, stop: nat)
    requires cs != [] && Ascending(cs) && Within(cs, start, stop) && Positive(cs)
    ensures var front, last := cs[..|cs| - 1], cs[|cs| - 1].offset;
            Within(front, start, last) && forall a :: Lookup(front, a) == if a < last then Lookup(cs, a) else None
  {
    var front, c := cs[..|cs| - 1], cs[|cs| - 1];
    assert cs == front + [c] && [c][1..] == [];
    forall a ensures Lookup(front, a) == if a < c.offset then Lookup(cs, a) else None {
      LookupConcat(front, [c], a);
      if a >= c.offset { LookupNone(front, a); }
    }
  }

  /** The byte the layer shows at `a` in the request `[start, end)`: the byte of its place if it
      is covered, zero otherwise. */
  function ShownByte(tr: nat -> Translation, mem: seq<byte>, start: nat, end: nat, a: nat): byte
    requires Paged(tr) && start <= a < end
  {
    if Covered(tr, |mem|, start, end, a) then
      CoveredInBuffer(tr, |mem|, "", start, end, a);
      mem[Expected(tr, |mem|, "", start, end, a).value.address]
    else 0
  }

  lemma {:induction false} PlaceIsShown(ps: seq<Piece>, tr: nat -> Translation, mem: seq<byte>, layer: string,
                                        start: nat, end: nat, a: nat)
    requires Paged(tr) && start <= a < end && Lookup(ps, a) == Expected(tr, |mem|, layer, start, end, a)
    ensures LinearLayer.ByteAt(ps, mem, a) == ShownByte(tr, mem, start, end, a)
  {
    if Covered(tr, |mem|, start, end, a) { CoveredInBuffer(tr, |mem|, layer, start, end, a); }
  }

  lemma {:induction false} ExpectedIsShown(ps: seq<Piece>, tr: nat -> Translation, mem: seq<byte>, layer: string,
                                           offset: nat, length: nat)
    requires Paged(tr)
    requires forall a: nat :: offset <= a < offset + length ==>
               Lookup(ps, a) == Expected(tr, |mem|, layer, offset, offset + length, a)
    ensures forall k :: 0 <= k < length ==>
              LinearLayer.Image(ps, mem, offset, length)[k] == ShownByte(tr, mem, offset, offset + length, offset + k)
  {
    forall k | 0 <= k < length
      ensures LinearLayer.Image(ps, mem, offset, length)[k] == ShownByte(tr, mem, offset, offset + length, offset + k)
    {
      var a, end := offset + k, offset + length;
      assert Lookup(ps, a) == Expected(tr, |mem|, layer, offset, end, a);
      PlaceIsShown(ps, tr, mem, layer, offset, end, a);
    }
  }

  /** The runs of a strict mapping leave no gap. */
  lemma {:induction false} StrictIsContiguous(tr: nat -> Translation, limit: nat, layer: string,
                                              offset: nat, length: nat)
    requires Paged(tr)
    ensures var m := RunMapping(tr, limit, layer, offset, length, false);
            m.fault == None ==> Contiguous(m.pieces, offset)
  {
    var m, end := RunMapping(tr, limit, layer, offset, length, false), offset + length;
    RunsShape(tr, limit, layer, offset, length, false);
    RunsMeaning(tr, limit, layer, offset, length, false);
    if m.fault == None && length > 0 {
      forall a | offset <= a < end ensures Lookup(m.pieces, a).Some? {
        assert Covered(tr, limit, offset, end, a);
      }
      CoveringIsContiguous(m.pieces, offset, end);
    }
  }

  /** When a read through the runs succeeds, and what it returns. */
  lemma {:induction false} ReadMeaning(tr: nat -> Translation, mem: seq<byte>, layer: string,
                                       offset: nat, length: nat, pad: bool)
    requires Paged(tr)
    ensures var m, end := RunMapping(tr, |mem|, layer, offset, length, pad), offset + length;
            && (m.fault == None && (pad || Contiguous(m.pieces, offset)) && LinearLayer.AllReadable(m.pieces, mem)
                <==> pad || AllCovered(tr, |mem|, offset, offset + Max(length, 1)))
            && (m.fault == None ==> forall k :: 0 <= k < length ==>
                  LinearLayer.Image(m.pieces, mem, offset, length)[k] == ShownByte(tr, mem, offset, end, offset + k))
  {
    var m, end := RunMapping(tr, |mem|, layer, offset, length, pad), offset + length;
    RunsShape(tr, |mem|, layer, offset, length, pad);
    RunsMeaning(tr, |mem|, layer, offset, length, pad);
    if !pad { StrictIsContiguous(tr, |mem|, layer, offset, length); }
    if m.fault == None { ExpectedIsShown(m.pieces, tr, mem, layer, offset, length); }
  }

  /** A strict read that fails raises the exception for the first address that is not covered. */
  lemma {:induction false} ReadFails(tr: nat -> Translation, mem: seq<byte>, layer: string, offset: nat, length: nat,
                                     error: Error)
    requires Paged(tr) && !AllCovered(tr, |mem|, offset, offset + Max(length, 1))
    requires exists n :: LinearLayer.FailsAt(RunMapping(tr, |mem|, layer, offset, length, false), mem, offset, false, n,
                                        error)
    ensures exists stop ::
              FirstUncovered(tr, |mem|, offset, offset + Max(length, 1), stop) && error == FaultAt(tr, stop)
  {
    var m := RunMapping(tr, |mem|, layer, offset, length, false);
    if length == 0 {
      TranslateMeaning(tr, |mem|, layer, offset, false);
      assert FirstUncovered(tr, |mem|, offset, offset + 1, offset);
    } else {
      var last, stop := RunsBeforeFault(tr, |mem|, layer, offset, length);
      forall a | offset <= a < last ensures Lookup(m.pieces, a).Some? {
        assert Covered(tr, |mem|, offset, offset + length, a);
      }
      RunsShape(tr, |mem|, layer, offset, length, false);
      CoveringIsContiguous(m.pieces, offset, last);
      LinearLayer.FailsWithFault(m, mem, offset, false, error);
    }
  }

  /** Over an aligned frame the layer shows the byte at the translated address. */
  lemma {:induction false} AlignedByte(tr: nat -> Translation, mem: seq<byte>, start: nat, end: nat, a: nat)
    requires Paged(tr) && start <= a < end && FrameAligned(tr(a)) && Covered(tr, |mem|, start, end, a)
    ensures tr(a).Page? && tr(a).address < |mem|
    ensures ShownByte(tr, mem, start, end, a) == mem[tr(a).address]
  {
    CoveredInBuffer(tr, |mem|, "", start, end, a);
    AlignedIsTranslated(tr, |mem|, "", start, end, a);
  }

  /** A mapping with pieces already yielded put in front. */
  function Prefixed(pieces: seq<Piece>, m: Mapping): Mapping {
    Mapping(pieces + m.pieces, m.fault)
  }

  lemma {:induction false} PrefixedEmpty(m: Mapping)
    ensures Prefixed([], m) == m
  {
    assert [] + m.pieces == m.pieces;
  }

  lemma {:induction false} PrefixedNil(pieces: seq<Piece>, fault: Option<Error>)
    ensures Prefixed(pieces, Mapping([], fault)) == Mapping(pieces, fault)
  {
    assert pieces + [] == pieces;
  }

  lemma {:induction false} PrefixedStep(pieces: seq<Piece>, p: Piece, m: Mapping)
    ensures Prefixed(pieces, Mapping([p] + m.pieces, m.fault)) == Prefixed(pieces + [p], m)
  {
    assert pieces + ([p] + m.pieces) == pieces + [p] + m.pieces;
  }

  class Intel {
    const tables: Tables
    const base: BufferDataLayer
    const baseName: string
    /** Results of finished walks by page address; faults are not cached. */
    var cache: map<nat, Walk>

    constructor (tables: Tables, base: BufferDataLayer, baseName: string)
      ensures this.tables == tables && this.base == base && this.baseName == baseName && CacheValid()
    {
      this.tables, this.base, this.baseName, this.cache := tables, base, baseName, map[];
    }

    ghost predicate CacheValid()
      reads this, base
    {
      forall a :: a in cache ==> cache[a] == TranslateEntry(tables, base.buffer, a)
    }

    ghost function Tr(): nat -> Translation
      reads base
    {
      Translator(tables, base.buffer)
    }

    /** `_translate_entry`: one table per level, until a fault, a large page or the last level. */
    method WalkTables(pageAddress: nat) returns (w: Walk)
      ensures w == TranslateEntry(tables, base.buffer, pageAddress)
    {
      var levels := tables.arch.structure;
      var position: int := BitsLeft(levels) - 1;
      var entry := tables.InitialEntry();
      ghost var mem := base.buffer;
      ghost var goal := TranslateEntry(tables, mem, pageAddress);
      if !tables.InRange(pageAddress) {
        return Fault(entry, position + 1);
      }
      while levels != []
        invariant AllFit(tables, levels) && position == BitsLeft(levels) - 1
        invariant goal == WalkFrom(tables, mem, levels, entry, pageAddress)
        decreases |levels|
      {
        WalkStep(tables, mem, levels, entry, pageAddress);
        if !tables.PageIsValid(entry) {
          return Fault(entry, position + 1);
        }
        var next := ReadEntry(tables, base.buffer, levels, entry, pageAddress);
        if next.None? {
          return Fault(entry, position + 1);
        }
        var size, large := levels[0].size, levels[0].large;
        entry, position, levels := next.value, position - size, levels[1..];
        if large && Bit(entry, 7) {
          return Found(ClearPat(entry), position + 1);
        }
      }
      return Found(entry, position + 1);
    }

    /** The cached walk: the cache never changes the answer. When it is full, another
        entry makes room. */
    method TranslateEntryCached(pageAddress: nat) returns (w: Walk)
      requires CacheValid()
      modifies this`cache
      ensures CacheValid() && w == TranslateEntry(tables, base.buffer, pageAddress)
    {
      if pageAddress in cache {
        return cache[pageAddress];
      }
      w := WalkTables(pageAddress);
      if w.Found? {
        if |cache| >= 1024 {
          var oldest :| oldest in cache;
          cache := cache - {oldest};
        }
        cache := cache[pageAddress := w];
      }
    }

    /** `_translate`. */
    method TranslateAddress(offset: nat, ghost tr: nat -> Translation) returns (r: Translation)
      requires CacheValid() && IsTranslation(tr, tables, base.buffer)
      modifies this`cache
      ensures CacheValid() && r == tr(offset)
    {
      assert tr(offset) == Translate(tables, base.buffer, offset);
      var w := TranslateEntryCached(tables.PageBase(offset));
      if w.Fault? || !tables.PageIsValid(w.entry) {
        return Unmapped(w.entry, w.bits);
      }
      var frame := Shl(tables.PtePfn(w.entry), 12);
      return Page(frame, w.bits, Or(frame, Mask(offset, w.bits - 1, 0)));
    }

    /** `_mapping`. */
    method MapChunks(offset: nat, length: nat, ignoreErrors: bool, ghost tr: nat -> Translation) returns (m: Mapping)
      requires CacheValid() && IsTranslation(tr, tables, base.buffer)
      modifies this`cache
      ensures CacheValid() && m == RawMapping(tr, |base.buffer|, baseName, offset, length, ignoreErrors)
    {
      if length == 0 {
        var r := TranslateAddress(offset, tr);
        if r.Page? && base.IsValid(r.address, 1) {
          return Mapping([Piece(offset, 0, r.address, 0, baseName)], None);
        } else if ignoreErrors {
          return Mapping([], None);
        }
        return Mapping([], Some(if r.Page? then InvalidAddress(r.address) else PagedInvalidAddress(r.bits, r.entry)));
      }
      m := MapNonEmpty(offset, length, ignoreErrors, tr);
    }

    /** The guarded part of `_mapping`: translate one chunk and test that the buffer holds
        it. On failure, `skipMask` says how far the request can jump. */
    method TryChunk(offset: nat, length: nat, ghost tr: nat -> Translation, ghost end: nat)
      returns (failure: Option<Error>, skipMask: nat, p: Piece)
      requires length > 0 && end == offset + length && CacheValid() && IsTranslation(tr, tables, base.buffer)
      modifies this`cache
      ensures CacheValid() && failure == Failure(tr, |base.buffer|, offset, end)
      ensures failure.Some? ==> offset + Skip(offset, skipMask) == NextAfterFailure(tr, offset, end)
      ensures failure.None? ==> tr(offset).Page? && p == FirstPiece(tr, baseName, offset, end) && p.offset == offset
    {
      p := Piece(offset, 0, 0, 0, baseName);
      var r := TranslateAddress(offset, tr);
      if r.Unmapped? {
        return Some(PagedInvalidAddress(r.bits, r.entry)), Pow2(r.bits) - 1, p;
      }
      var chunk := ChunkSize(r, offset, length);
      if !base.IsValid(r.address, chunk) {
        return Some(InvalidAddress(r.address)), chunk - 1, p;
      }
      return None, 0, Piece(offset, chunk, r.address, chunk, baseName);
    }

    method MapNonEmpty(start: nat, total: nat, ignoreErrors: bool, ghost tr: nat -> Translation) returns (m: Mapping)
      requires CacheValid() && IsTranslation(tr, tables, base.buffer)
      modifies this`cache
      ensures CacheValid() && m == MapPages(tr, |base.buffer|, baseName, start, start + total, ignoreErrors)
    {
      var offset, length: int := start, total;
      var pieces: seq<Piece> := [];
      ghost var limit, end := |base.buffer|, start + total;
      ghost var goal := MapPages(tr, limit, baseName, start, end, ignoreErrors);
      ghost var rest := goal;
      PrefixedEmpty(goal);
      while length > 0
        invariant CacheValid()
        invariant length == end - offset
        invariant rest == MapPages(tr, limit, baseName, offset, end, ignoreErrors)
        invariant goal == Prefixed(pieces, rest)
      {
        var failure, skipMask, p := TryChunk(offset, length, tr, end);
        MapPagesStep(tr, limit, baseName, offset, end, ignoreErrors);
        if failure.Some? {
          if !ignoreErrors {
            PrefixedNil(pieces, failure);
            return Mapping(pieces, failure);
          }
          var diff := Skip(offset, skipMask);
          var next := offset + diff;
          assert next == NextAfterFailure(tr, offset, end);
          assert rest == MapPages(tr, limit, baseName, next, end, true);
          length, offset := length - diff, next;
        } else {
          rest := MapPages(tr, limit, baseName, p.End(), end, ignoreErrors);
          PrefixedStep(pieces, p, rest);
          pieces := pieces + [p];
          assert offset + p.length == p.End();
          length, offset := length - p.length, offset + p.length;
        }
      }
      PrefixedNil(pieces, None);
      return Mapping(pieces, None);
    }

    /** `mapping`: the chunks of `_mapping`, with runs that continue each other joined. */
    method MapRuns(offset: nat, length: nat, ignoreErrors: bool) returns (m: Mapping)
      requires CacheValid()
      modifies this`cache
      ensures CacheValid()
      ensures m == RunMapping(Tr(), |base.buffer|, baseName, offset, length, ignoreErrors)
    {
      TranslatorIsTranslation(tables, base.buffer);
      var chunks := MapChunks(offset, length, ignoreErrors, Tr());
      m := CoalesceRuns(chunks);
    }

    /** `translate`: the place of an address, if the buffer holds its byte. */
    method PlaceOf(offset: nat, ignoreErrors: bool) returns (r: Result<Option<Place>>)
      requires CacheValid()
      modifies this`cache
      ensures CacheValid()
      ensures var t := Translate(tables, base.buffer, offset);
              r == if t.Page? && t.address < |base.buffer| then Ok(Some(Place(baseName, t.address)))
                   else if ignoreErrors then Ok(None)
                   else Err(FaultAt(Tr(), offset))
    {
      var m := MapRuns(offset, 0, ignoreErrors);
      TranslatorIsPaged(tables, base.buffer);
      TranslateMeaning(Tr(), |base.buffer|, baseName, offset, ignoreErrors);
      r := LinearLayer.TranslateThrough(m, offset, ignoreErrors);
    }

    /** `is_valid`: the mapping succeeds and the first byte of every piece is valid. That is so
        exactly when a strict read of the range succeeds. */
    method IsValid(offset: nat, length: nat) returns (valid: bool)
      requires CacheValid()
      modifies this`cache
      ensures CacheValid()
      ensures valid <==> AllCovered(Tr(), |base.buffer|, offset, offset + Max(length, 1))
    {
      var m := MapRuns(offset, length, false);
      RunsShape(Tr(), |base.buffer|, baseName, offset, length, false);
      TranslatorIsPaged(tables, base.buffer);
      RunsMeaning(Tr(), |base.buffer|, baseName, offset, length, false);
      if m.fault.Some? {
        return false;
      }
      valid := true;
      var i := 0;
      while valid && i < |m.pieces|
        invariant i <= |m.pieces|
        invariant valid <==> forall j :: 0 <= j < i ==> InBounds(|base.buffer|, m.pieces[j].mappedOffset, 1)
      {
        valid := base.IsValid(m.pieces[i].mappedOffset, 1);
        i := i + 1;
      }
    }

    /** `read`. Padded, it always succeeds, with the byte of its chunk at each covered address
        and zero elsewhere; strict, it succeeds exactly when every address of the request is
        covered, and otherwise raises the exception for the first that is not. */
    method Read(offset: nat, length: nat, pad: bool) returns (r: Result<seq<byte>>)
      requires CacheValid()
      modifies this`cache
      ensures CacheValid()
      ensures r.Ok? <==> pad || AllCovered(Tr(), |base.buffer|, offset, offset + Max(length, 1))
      ensures Paged(Tr())
      ensures r.Ok? ==> |r.value| == length
      ensures r.Ok? ==> forall k :: 0 <= k < length ==>
                r.value[k] == ShownByte(Tr(), base.buffer, offset, offset + length, offset + k)
      ensures r.Err? ==> exists stop :: FirstUncovered(Tr(), |base.buffer|, offset, offset + Max(length, 1), stop)
                                   && r.error == FaultAt(Tr(), stop)
    {
      var m := MapRuns(offset, length, pad);
      RunsShape(Tr(), |base.buffer|, baseName, offset, length, pad);
      TranslatorIsPaged(tables, base.buffer);
      ReadMeaning(Tr(), base.buffer, baseName, offset, length, pad);
      r := LinearLayer.Read(base, m, offset, length, pad);
      if r.Err? { ReadFails(Tr(), base.buffer, baseName, offset, length, r.error); }
    }
  }
}
