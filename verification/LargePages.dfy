/** A large page whose frame has bits below the page size, in a 32-bit layer: what the
    exact conditions of `PagedSpace` and `PageMapping` say about it. */
module LargePages {
  import opened Bits
  import opened IntelManual
  import opened Memory
  import opened PagedSpace
  import opened PageMapping
  import opened PageTables

  const LAYER := Tables(INTEL, 0)

  /** Three pages of memory: a page directory whose only entry maps a four-megabyte page at
      0x2000, and zeros. */
  const MEMORY: seq<byte> := [0x81, 0x20] + Zeros(0x2ffe)

  lemma {:induction false} Directory()
    ensures GetValidTable(LAYER, MEMORY, 0) == Some(MEMORY[0..PAGE_SIZE])
  {
    EntrySizes(LAYER);
    var table := MEMORY[0..PAGE_SIZE];
    var first := table[..4];
    assert Repeat(first, 1024) == first + (first + Repeat(first, 1022));
    assert Repeat(first, 1024)[4] == 0x81 != table[4];
  }

  lemma {:induction false} TheEntry()
    ensures LittleEndian(MEMORY[0..4]) == 0x2081
  {
    var s := MEMORY[0..4];
    assert s == [0x81, 0x20, 0, 0] && s[1..] == [0x20, 0, 0] && s[1..][1..] == [0, 0];
    assert s[1..][1..][1..] == [0] && s[1..][1..][1..][1..] == [];
    assert LittleEndian(s[1..][1..][1..]) == 0;
    assert LittleEndian(s[1..][1..]) == 0;
  }

  lemma {:induction false} ZeroBelow(x: nat, n: nat, m: nat)
    requires x < Pow2(n)
    ensures Low(Shr(x, n), m) == 0 && Shl(Low(Shr(x, n), m), n) == 0
  {
    LowSmall(x, n);
    LowSmall(0, m);
    ShlIsMul(0, n);
  }

  lemma {:induction false} TheRoot()
    ensures LAYER.InitialEntry() == 1 && Mask(1, 31, 12) == 0
  {
    var levels := INTEL.structure;
    assert levels[1..] == [Level(10, false)] && levels[1..][1..] == [];
    Pow2Values();
    ZeroBelow(0, 0, 32);
    ZeroBelow(1, 12, 20);
  }

  lemma {:induction false} TheLevels(levels: seq<Level>)
    requires levels == INTEL.structure
    ensures BitsLeft(levels) == 32 && BitsLeft(levels[1..]) == 22
  {
    assert levels[1..] == [Level(10, false)] && levels[1..][1..] == [];
  }

  lemma {:induction false} TheIndex(levels: seq<Level>, a: nat)
    requires a < 0x40_0000 && levels == INTEL.structure
    ensures EntryIndex(levels, a) == 0
  {
    TheLevels(levels);
    assert Pow2(22) == 0x40_0000 by { Pow2Values(); }
    ZeroBelow(a, 22, 10);
  }

  lemma {:induction false} FirstEntry(table: seq<byte>, size: nat)
    requires table == MEMORY[0..PAGE_SIZE] && size == LAYER.EntrySize()
    ensures size <= |table| && TableEntry(LAYER, table, 0) == 0x2081
  {
    EntrySizes(LAYER);
    TheEntry();
    assert table[0..size] == MEMORY[0..size];
  }

  lemma {:induction false} TheSlot(levels: seq<Level>, entry: nat, a: nat)
    requires a < 0x40_0000 && levels == INTEL.structure && entry == 1
    ensures ReadEntry(LAYER, MEMORY, levels, entry, a) == Some(0x2081)
  {
    TheIndex(levels, a);
    TheRoot();
    Directory();
    FirstEntry(MEMORY[0..PAGE_SIZE], LAYER.EntrySize());
  }

  /** Every address of the first four megabytes is in that page. */
  lemma {:induction false} TheWalk(a: nat)
    requires a < 0x40_0000
    ensures TranslateEntry(LAYER, MEMORY, a) == Found(0x2081, 22)
  {
    var levels, entry := INTEL.structure, LAYER.InitialEntry();
    TheRoot();
    TheLevels(levels);
    TheSlot(levels, entry, a);
    TheBits();
    WalkStep(LAYER, MEMORY, levels, entry, a);
  }

  lemma {:induction false} TheBits()
    ensures Bit(1, 0) && Bit(0x2081, 0) && Bit(0x2081, 7) && ClearPat(0x2081) == 0x2081
  {
    Pow2Values();
    ShrIsDiv(0x2081, 7);
    ShrIsDiv(0x2081, 12);
  }

  lemma {:induction false} InPage(a: nat)
    requires a < 0x40_0000
    ensures Low(a, 22) == a && Pow2(22) == 0x40_0000
  {
    Pow2Values();
    LowSmall(a, 22);
  }

  /** In-page offset `a` is ORed into the frame 0x2000. */
  lemma {:induction false} ThePage(a: nat)
    requires a < 0x40_0000
    ensures Translate(LAYER, MEMORY, a) == Page(0x2000, 22, Or(0x2000, a))
  {
    WalkOfPageBase(LAYER, MEMORY, a);
    TheWalk(a);
    ThePlace(Found(0x2081, 22), a);
  }

  lemma {:induction false} ThePlace(w: Walk, a: nat)
    requires a < 0x40_0000 && w == Found(0x2081, 22)
    ensures Resolve(LAYER, w, a) == Page(0x2000, 22, Or(0x2000, a))
  {
    TheBits();
    TheFrame();
    InPage(a);
  }

  lemma {:induction false} TheFrame()
    ensures Shl(LAYER.PtePfn(0x2081), 12) == 0x2000
  {
    Pow2Values();
    LowSmall(0x2081, 32);
    ShrIsDiv(0x2081, 12);
    ShlIsMul(2, 12);
  }

  /** The condition of `LinearIffFrameAligned` fails for tables that exist: this page is not linear. */
  lemma {:induction false} UnalignedPageExists()
    ensures var tr := Translator(LAYER, MEMORY);
            tr(0).Page? && !FrameAligned(tr(0)) && !LinearInPage(tr, 0)
  {
    var tr := Translator(LAYER, MEMORY);
    ThePage(0);
    Pow2Values();
    LowSmall(0x2000, 22);
    TranslatorIsPaged(LAYER, MEMORY);
    LinearIffFrameAligned(tr, 0);
  }

  lemma {:induction false} TheUses(levels: seq<Level>, entry: nat, a: nat)
    requires a < 0x40_0000 && levels == INTEL.structure && entry == 1
    ensures Uses(LAYER, MEMORY, levels, entry, a) == [Use(22, TableBase(LAYER, levels[0], entry), Some(0x2081))]
  {
    TheLevels(levels);
    TheSlot(levels, entry, a);
    TheBits();
  }

  lemma {:induction false} TheReservedBit(e: nat)
    requires e == 0x2081
    ensures Field(e, 13, 22) != 0
  {
    var n := 13;
    assert Pow2(n) == 0x2000 by {
      Pow2Values();
      assert Pow2(n) == 2 * Pow2(n - 1);
    }
    ShrIsDiv(e, n);
    assert Low(1, 9) == 1;
  }

  /** The manual does not map this page: its entry sets bit 13, which is reserved. */
  lemma {:induction false} ReservedBitIsIgnored(a: nat)
    requires a < 0x40_0000
    ensures Translate(LAYER, MEMORY, a).Page? && ThirtyTwoBitMaps(MEMORY, LAYER.root, a) == None
  {
    ThePage(a);
    ThirtyTwoBitAgrees(LAYER.root, MEMORY, a);
    TheRoot();
    TheUses(INTEL.structure, LAYER.InitialEntry(), a);
    TheBits();
    TheReservedBit(0x2081);
    OneUse(ThirtyTwoBit, 32, 22, TableBase(LAYER, INTEL.structure[0], LAYER.InitialEntry()), 0x2081);
  }

  lemma {:induction false} OrAbove(h: nat, o: nat, n: nat)
    requires o < Pow2(n)
    ensures Or(Shl(h, n), o) == Shl(h, n) + o
  {
    OrSplit(h, 0, o, n);
  }

  lemma {:induction false} FrameBits(start: nat, frame: nat)
    requires start == 0x1000 && frame == 0x2000
    ensures Or(frame, start) == 0x3000 && Or(frame, frame) == frame
  {
    var n := 13;
    assert Pow2(n) == frame by {
      Pow2Values();
      assert Pow2(n) == 2 * Pow2(n - 1);
    }
    ShlIsMul(1, n);
    OrAbove(1, start, n);
    OrSelf(frame);
  }

  lemma {:induction false} OffsetBits(start: nat, n: nat)
    requires start == 0x1000 && n == 13
    ensures And(start, 0x1fff) == start
  {
    assert Pow2(n) == 0x2000 by {
      Pow2Values();
      assert Pow2(n) == 2 * Pow2(n - 1);
    }
    LowSmall(start, n);
    AndLowMask(start, n);
  }

  /** A failed try at `start` that jumps to a place of the same page which can be read. */
  lemma {:induction false} RetryMaps(tr: nat -> Translation, limit: nat, start: nat, end: nat)
    requires Paged(tr) && start < end && tr(start).Page? && Failure(tr, limit, start, end).Some?
    requires var next := NextAfterFailure(tr, start, end);
             next < Min(RegionEnd(tr, start), end) && Failure(tr, limit, next, end).None?
    ensures var next := NextAfterFailure(tr, start, end);
            FirstTry(tr, start, next) == start && ChunkStart(tr, limit, start, end, next) == Some(next)
  {
    var next := NextAfterFailure(tr, start, end);
    SamePage(tr, start, next);
    assert TryThatMaps(tr, limit, next, end, next) == Some(next);
  }

  lemma {:induction false} FirstTryFails(tr: nat -> Translation, start: nat, end: nat)
    requires tr(start) == Page(0x2000, 22, end) && start == 0x1000 && end == 0x3000
    ensures Failure(tr, end, start, end) == Some(InvalidAddress(end))
    ensures NextAfterFailure(tr, start, end) == 0x2000 && RegionEnd(tr, start) == 0x40_0000
  {
    OffsetBits(start, 13);
    InPage(start);
    assert ChunkSize(tr(start), start, end - start) == 0x2000;
  }

  lemma {:induction false} SecondTryFits(tr: nat -> Translation, next: nat, end: nat)
    requires tr(next) == Page(0x2000, 22, next) && next == 0x2000 && end == 0x3000
    ensures Failure(tr, end, next, end) == None
  {
    InPage(next);
  }

  /** A request that starts inside this page: the first try would need bytes past the end of
      the memory; the jump lands inside the page, and the try there succeeds. */
  lemma {:induction false} RetryInsidePage(start: nat, next: nat, end: nat)
    requires start == 0x1000 && next == 0x2000 && end == 0x3000
    ensures var tr := Translator(LAYER, MEMORY);
            && end == |MEMORY|
            && Failure(tr, end, start, end) == Some(InvalidAddress(end))
            && FirstTry(tr, start, next) == start
            && ChunkStart(tr, end, start, end, next) == Some(next)
  {
    var tr := Translator(LAYER, MEMORY);
    TranslatorIsPaged(LAYER, MEMORY);
    ThePage(start);
    ThePage(next);
    FrameBits(start, next);
    FirstTryFails(tr, start, end);
    SecondTryFits(tr, next, end);
    RetryMaps(tr, end, start, end);
  }
}
