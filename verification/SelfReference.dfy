/** Finding a Windows directory table base: the page test that looks for one entry
    pointing back at its own page, and what acceptance means for the layer built on it. */
module SelfReference {
  import opened Bits
  import opened IntelManual
  import opened Memory
  import opened PagedSpace
  import opened PageTables

  /** The parameters of a test; valid indices are `low` up to `high - 1`. */
  datatype DtbTest = DtbTest(pointerSize: nat, mask: nat, low: nat, high: nat, reservedBits: nat)

  const SELF_REF_64 := DtbTest(8, 0x3F_FFFF_FFFF_F000, 0x100, 0x1FF, 0x80)
  const SELF_REF_64_OLD := DtbTest(8, 0x3F_FFFF_FFFF_F000, 0x1ED, 0x1EE, 0x80)

  datatype Verdict = Accepted(dtb: nat, ref: nat) | Rejected | UnpackError

  /** The pointer at byte `ref` of a page. */
  function Pointer(page: seq<byte>, ref: nat, size: nat): nat {
    if ref + size <= |page| then LittleEndian(page[ref..ref + size]) else 0
  }

  /** Whether an entry of a page starts at byte `ref`; entries have 4 or 8 bytes. */
  predicate IsSlot(ref: nat, size: nat) {
    (if size == 4 then ref % 4 == 0 else ref % 8 == 0) && ref < PAGE_SIZE
  }

  /** A valid entry with a reserved bit set. */
  predicate Bad(t: DtbTest, page: seq<byte>, ref: nat) {
    var ptr := Pointer(page, ref, t.pointerSize);
    And(ptr, t.reservedBits) != 0 && Bit(ptr, 0)
  }

  /** A valid entry that points to `dtb`. */
  predicate Refers(t: DtbTest, page: seq<byte>, ref: nat, dtb: nat) {
    var ptr := Pointer(page, ref, t.pointerSize);
    And(ptr, t.mask) == dtb && dtb > 0 && Bit(ptr, 0)
  }

  /** The page of a chunk of data, or what the chunk holds of it. */
  function PageOf(data: seq<byte>, pageOffset: nat): (page: seq<byte>)
    ensures |page| == Max(0, Min(PAGE_SIZE, |data| - pageOffset))
    ensures forall k :: 0 <= k < |page| ==> page[k] == data[pageOffset + k]
  {
    data[Min(pageOffset, |data|)..Min(pageOffset + PAGE_SIZE, |data|)]
  }

  /** A full page without bad entries in which the entry at `ref`, and no other, refers
      back to `dtb`, at an index the test allows. */
  ghost predicate SelfMapped(t: DtbTest, page: seq<byte>, dtb: nat, ref: nat)
    requires t.pointerSize > 0
  {
    && |page| == PAGE_SIZE && IsSlot(ref, t.pointerSize) && t.low <= ref / t.pointerSize < t.high
    && NoneBad(t, page)
    && (forall r: nat :: IsSlot(r, t.pointerSize) ==> (Refers(t, page, r, dtb) <==> r == ref))
  }

  /** What the test looks for at a place in a chunk of data. */
  ghost predicate Accepts(t: DtbTest, data: seq<byte>, dataOffset: nat, pageOffset: nat, ref: nat)
    requires t.pointerSize > 0
  {
    SelfMapped(t, PageOf(data, pageOffset), dataOffset + pageOffset, ref)
  }

  lemma {:induction false} OneElement(s: set<nat>, x: nat)
    requires |s| == 1 && x in s
    ensures s == {x}
  {
    assert |s - {x}| == 0;
  }

  lemma {:induction false} SlotsBetween(ref: nat, size: nat)
    requires size in {4, 8} && IsSlot(ref, size)
    ensures ref + size < PAGE_SIZE ==> IsSlot(ref + size, size)
    ensures forall r: nat :: ref < r < ref + size ==> !IsSlot(r, size)
  {
    if size == 4 {
    } else {
      assert size == 8;
    }
  }

  /** No entry of the page is bad; what is cut off by the end of the page is none. */
  ghost predicate NoneBad(t: DtbTest, page: seq<byte>) {
    forall r: nat :: IsSlot(r, t.pointerSize) ==> !Bad(t, page, r)
  }

  lemma {:induction false} NothingPastEnd(t: DtbTest, page: seq<byte>, ref: nat, r: nat)
    requires ref <= r && ref + t.pointerSize > |page|
    ensures !Bad(t, page, r)
  {
    assert Pointer(page, r, t.pointerSize) == 0;
  }

  datatype Scan = References(refs: set<nat>) | BadEntry | ShortPage

  /** The loop of the page test: the bytes at which valid entries refer to `dtb`. */
  method CollectReferences(t: DtbTest, page: seq<byte>, dtb: nat) returns (s: Scan)
    requires t.pointerSize in {4, 8} && |page| <= PAGE_SIZE
    ensures s.BadEntry? <==> !NoneBad(t, page)
    ensures s.ShortPage? <==> |page| < PAGE_SIZE && NoneBad(t, page)
    ensures s.References? ==> forall r: nat :: r in s.refs <==> IsSlot(r, t.pointerSize) && Refers(t, page, r, dtb)
  {
    var refPages: set<nat> := {};
    var ref := 0;
    while ref < PAGE_SIZE
      invariant ref <= |page| && (ref < PAGE_SIZE ==> IsSlot(ref, t.pointerSize)) && ref <= PAGE_SIZE
      invariant forall r: nat :: r < ref && IsSlot(r, t.pointerSize) ==> !Bad(t, page, r)
      invariant forall r: nat :: r in refPages <==> r < ref && IsSlot(r, t.pointerSize) && Refers(t, page, r, dtb)
    {
      if ref + t.pointerSize > |page| {
        forall r: nat | ref <= r && IsSlot(r, t.pointerSize) ensures !Bad(t, page, r) {
          NothingPastEnd(t, page, ref, r);
        }
        return ShortPage;
      }
      if Bad(t, page, ref) {
        assert !NoneBad(t, page);
        return BadEntry;
      }
      if Refers(t, page, ref, dtb) {
        refPages := refPages + {ref};
      }
      SlotsBetween(ref, t.pointerSize);
      ref := ref + t.pointerSize;
    }
    return References(refPages);
  }

  /** The page test accepts exactly the self-mapped full pages. A short page without a bad
      entry makes unpacking fail. */
  method Test(t: DtbTest, data: seq<byte>, dataOffset: nat, pageOffset: nat) returns (v: Verdict)
    requires t.pointerSize in {4, 8}
    ensures v.Accepted? ==> v.dtb == dataOffset + pageOffset && Accepts(t, data, dataOffset, pageOffset, v.ref)
    ensures forall ref: nat :: Accepts(t, data, dataOffset, pageOffset, ref)
              ==> v == Accepted(dataOffset + pageOffset, ref)
    ensures v.UnpackError? <==> 0 < |PageOf(data, pageOffset)| < PAGE_SIZE && NoneBad(t, PageOf(data, pageOffset))
  {
    var page, dtb := PageOf(data, pageOffset), dataOffset + pageOffset;
    if page == [] {
      return Rejected;
    }
    var s := CollectReferences(t, page, dtb);
    if s.ShortPage? {
      return UnpackError;
    } else if s.BadEntry? {
      return Rejected;
    }
    forall r: nat | Accepts(t, data, dataOffset, pageOffset, r)
      ensures s.refs == {r}
    {
    }
    if |s.refs| == 1 {
      var refPage :| refPage in s.refs;
      OneElement(s.refs, refPage);
      if t.low <= refPage / t.pointerSize < t.high {
        return Accepted(dtb, refPage);
      }
    }
    return Rejected;
  }

  // ---- what an accepted page means for the layer built on it ----

  /** The address whose four table indices are all `i` and whose page offset is `o`. */
  function SelfMapAddress(i: nat, o: nat): nat {
    i * 0x80_0000_0000 + i * 0x4000_0000 + i * 0x20_0000 + i * 0x1000 + o
  }

  lemma {:induction false} SelfMapQuotients(i: nat, o: nat)
    requires i < 512 && o < PAGE_SIZE
    ensures var a := SelfMapAddress(i, o);
            && a / 0x80_0000_0000 == i
            && a / 0x4000_0000 == i * 512 + i
            && a / 0x20_0000 == (i * 512 + i) * 512 + i
            && a / 0x1000 == ((i * 512 + i) * 512 + i) * 512 + i && a % 0x1000 == o
  {
    var a := SelfMapAddress(i, o);
    var r21 := i * 0x1000 + o;
    var r30 := i * 0x20_0000 + r21;
    DivModUnique(a, 0x80_0000_0000, i, i * 0x4000_0000 + r30);
    DivModUnique(a, 0x4000_0000, i * 512 + i, r30);
    DivModUnique(a, 0x20_0000, (i * 512 + i) * 512 + i, r21);
    DivModUnique(a, 0x1000, ((i * 512 + i) * 512 + i) * 512 + i, o);
  }

  lemma {:induction false} SelfMapFields(i: nat, o: nat)
    requires i < 512 && o < PAGE_SIZE
    ensures var a := SelfMapAddress(i, o);
            Field(a, 39, 48) == i && Field(a, 30, 39) == i && Field(a, 21, 30) == i && Field(a, 12, 21) == i
                && Low(a, 12) == o
  {
    var a := SelfMapAddress(i, o);
    Pow2Values();
    SelfMapQuotients(i, o);
    NineBits(a, 39, i, 0);
    NineBits(a, 30, i, i);
    NineBits(a, 21, i, i * 512 + i);
    NineBits(a, 12, i, (i * 512 + i) * 512 + i);
    ShrIsDiv(a, 12);
  }

  lemma {:induction false} NineBits(a: nat, low: nat, i: nat, above: nat)
    requires a / Pow2(low) == above * 512 + i && i < 512
    ensures Field(a, low, low + 9) == i
  {
    var x, nine := Shr(a, low), 9;
    ShrIsDiv(a, low);
    ShrIsDiv(x, nine);
    assert Pow2(nine) == 512;
    DivModUnique(x, 512, above, i);
  }

  /** A pointer whose bits 12 to 53 are the page at `dtb`, when `dtb` lies below 2^45:
      masked to the 45 physical bits of the layer it is still `dtb`. */
  lemma {:induction false} MaskedPointer(ptr: nat, dtb: nat)
    requires And(ptr, SELF_REF_64.mask) == dtb < 0x2000_0000_0000
    ensures Mask(ptr, 44, 12) == dtb == Mask(dtb, 44, 12)
  {
    MaskConstant();
    MaskIsXorMask(ptr, 53, 12);
    NarrowerMask(ptr, dtb);
  }

  lemma {:induction false} NarrowerMask(ptr: nat, dtb: nat)
    requires Mask(ptr, 53, 12) == dtb < 0x2000_0000_0000
    ensures Mask(ptr, 44, 12) == dtb == Mask(dtb, 44, 12)
  {
    var f, n := Field(ptr, 12, 54), 12;
    ShlIsMul(f, n);
    Pow2Values();
    SmallFactor(f);
    LowSmall(f, 33);
    LowLow(Shr(ptr, n), 42, 33);
    Join(f, 0, n);
  }

  lemma {:induction false} SmallFactor(f: nat)
    requires f * 0x1000 < 0x2000_0000_0000
    ensures f < Pow2(33)
  {
    var n := 33;
    Pow2Add(12, n);
    Pow2Values();
  }

  lemma {:induction false} MaskConstant()
    ensures SELF_REF_64.mask == XorMask(53, 12)
  {
    XorOfRuns(54, 12);
    Pow2Add(45, 9);
    Pow2Values();
  }

  predicate Is64Bit(t: DtbTest) {
    t.pointerSize == 8 && t.mask == SELF_REF_64.mask && t.reservedBits == 0x80 && 0 <= t.low <= t.high <= 512
  }

  /** Entry `i` of a page, as the manual reads it. */
  ghost function EntryAt(page: seq<byte>, i: nat): nat
    requires i < 512 && |page| == PAGE_SIZE
  {
    Entry(page, 0, i, 8).value
  }

  lemma {:induction false} SlotIsEntry(t: DtbTest, page: seq<byte>, i: nat, dtb: nat)
    requires Is64Bit(t) && i < 512 && |page| == PAGE_SIZE
    ensures var e := EntryAt(page, i);
            && Pointer(page, 8 * i, 8) == e
            && (Bad(t, page, 8 * i) <==> Bit(e, 0) && MapsPage(e))
            && (Refers(t, page, 8 * i, dtb) <==> Bit(e, 0) && Mask(e, 53, 12) == dtb > 0)
  {
    var e := Pointer(page, 8 * i, 8);
    BitSeven(e);
    PointerMask(e, t.mask, 53);
  }

  lemma {:induction false} PointerMask(e: nat, mask: nat, high: nat)
    requires mask == SELF_REF_64.mask && high == 53
    ensures And(e, mask) == Mask(e, high, 12)
  {
    MaskConstant();
    MaskIsXorMask(e, high, 12);
  }

  /** What the 64-bit tests accept, in terms of page-table entries: a full page in which no present
      entry maps a page, and exactly one present entry, at an index of the test, names the frame of
      the page in bits 12 to 53. */
  lemma {:induction false} AcceptsIff(t: DtbTest, data: seq<byte>, dataOffset: nat, pageOffset: nat, i: nat)
    requires Is64Bit(t) && i < 512
    ensures Accepts(t, data, dataOffset, pageOffset, 8 * i) <==>
            var page, dtb := PageOf(data, pageOffset), dataOffset + pageOffset;
            && |page| == PAGE_SIZE && t.low <= i < t.high && dtb > 0
            && (forall k: nat :: k < 512 ==> var e := EntryAt(page, k);
                  (Bit(e, 0) ==> !MapsPage(e)) && (Bit(e, 0) && Mask(e, 53, 12) == dtb <==> k == i))
  {
    var page, dtb := PageOf(data, pageOffset), dataOffset + pageOffset;
    if |page| == PAGE_SIZE {
      forall k: nat | k < 512
        ensures Bad(t, page, 8 * k) <==> Bit(EntryAt(page, k), 0) && MapsPage(EntryAt(page, k))
        ensures Refers(t, page, 8 * k, dtb) <==> Bit(EntryAt(page, k), 0) && Mask(EntryAt(page, k), 53, 12) == dtb > 0
        ensures IsSlot(8 * k, 8)
      {
        SlotIsEntry(t, page, k, dtb);
      }
      forall r: nat | IsSlot(r, 8) ensures r / 8 < 512 && r == 8 * (r / 8) {
      }
    }
  }

  /** A page that refers to itself once is not one entry repeated: the duplicate-table
      rejection cannot hit the table base. */
  lemma {:induction false} SelfMappedTable(t: DtbTest, mem: seq<byte>, tables: Tables, dtb: nat, ref: nat)
    requires Is64Bit(t) && tables.arch.indexShift == 3
    requires dtb + PAGE_SIZE <= |mem| && SelfMapped(t, mem[dtb..dtb + PAGE_SIZE], dtb, ref)
    ensures GetValidTable(tables, mem, dtb) == Some(mem[dtb..dtb + PAGE_SIZE])
  {
    EntrySizes(tables);
    var page := mem[dtb..dtb + PAGE_SIZE];
    var k := ref / 8;
    var other := if k == 0 then 1 else 0;
    if page == Repeat(page[..8], 512) {
      SlotOfRepeat(page[..8], 512, k);
      SlotOfRepeat(page[..8], 512, other);
      assert Pointer(page, 8 * k, 8) == Pointer(page, 8 * other, 8);
      assert Refers(t, page, 8 * k, dtb) && IsSlot(8 * other, 8);
      assert false;
    }
  }

  /** The self-referring entry is valid, maps no large page, and holds the base. */
  lemma {:induction false} SelfMappedEntry(t: DtbTest, page: seq<byte>, dtb: nat, ref: nat)
    requires Is64Bit(t) && SelfMapped(t, page, dtb, ref) && dtb < 0x2000_0000_0000
    ensures var ptr := Pointer(page, ref, 8);
            Bit(ptr, 0) && !Bit(ptr, 7) && Mask(ptr, 44, 12) == dtb == Mask(dtb, 44, 12)
  {
    var ptr := Pointer(page, ref, 8);
    assert Refers(t, page, ref, dtb) && !Bad(t, page, ref);
    MaskedPointer(ptr, dtb);
    BitSeven(ptr);
  }

  lemma {:induction false} BitSeven(x: nat)
    ensures And(x, 0x80) == 0 <==> !Bit(x, 7)
  {
    var seven := 7;
    AndBit(x, seven);
    assert Pow2(seven) == 0x80;
  }

  /** The layer `WindowsIntel32e` with directory table base `dtb`. */
  function LayerAt(dtb: nat): Tables {
    Tables(WINDOWS_INTEL_32E, dtb)
  }

  lemma {:induction false} SelfMapSlot(t: DtbTest, mem: seq<byte>, levels: seq<Level>, entry: nat, dtb: nat, ref: nat,
                                       a: nat)
    requires Is64Bit(t) && dtb + PAGE_SIZE <= |mem| && dtb < 0x2000_0000_0000
    requires SelfMapped(t, mem[dtb..dtb + PAGE_SIZE], dtb, ref)
    requires levels != [] && AllFit(LayerAt(dtb), levels) && levels[0].size == 9
    requires Field(a, BitsLeft(levels[1..]), BitsLeft(levels)) == ref / 8 && Mask(entry, 44, 12) == dtb
    ensures ReadEntry(LayerAt(dtb), mem, levels, entry, a) == Some(Pointer(mem[dtb..dtb + PAGE_SIZE], ref, 8))
  {
    EntrySizes(LayerAt(dtb));
    SelfMappedTable(t, mem, LayerAt(dtb), dtb, ref);
    assert ref / 8 * 8 == ref;
  }

  /** Every level of the walk of a self-map address reads the self-referring entry. */
  lemma {:induction false} SelfMapRead(t: DtbTest, mem: seq<byte>, levels: seq<Level>, entry: nat, dtb: nat, ref: nat,
                                       a: nat)
    requires Is64Bit(t) && dtb + PAGE_SIZE <= |mem| && dtb < 0x2000_0000_0000
    requires SelfMapped(t, mem[dtb..dtb + PAGE_SIZE], dtb, ref)
    requires levels != [] && AllFit(LayerAt(dtb), levels) && levels[0].size == 9
    requires Field(a, BitsLeft(levels[1..]), BitsLeft(levels)) == ref / 8
    requires Bit(entry, 0) && Mask(entry, 44, 12) == dtb
    ensures var ptr := Pointer(mem[dtb..dtb + PAGE_SIZE], ref, 8);
            && WalkFrom(LayerAt(dtb), mem, levels, entry, a) == WalkFrom(LayerAt(dtb), mem, levels[1..], ptr, a)
            && Bit(ptr, 0) && Mask(ptr, 44, 12) == dtb
  {
    SelfMappedEntry(t, mem[dtb..dtb + PAGE_SIZE], dtb, ref);
    SelfMapSlot(t, mem, levels, entry, dtb, ref, a);
    WalkStep(LayerAt(dtb), mem, levels, entry, a);
  }

  lemma {:induction false} SelfMapWalk(t: DtbTest, mem: seq<byte>, entry: nat, dtb: nat, ref: nat, o: nat)
    requires Is64Bit(t) && dtb + PAGE_SIZE <= |mem| && dtb < 0x2000_0000_0000 && o < PAGE_SIZE
    requires SelfMapped(t, mem[dtb..dtb + PAGE_SIZE], dtb, ref)
    requires Bit(entry, 0) && Mask(entry, 44, 12) == dtb
    ensures var ptr := Pointer(mem[dtb..dtb + PAGE_SIZE], ref, 8);
            && WalkFrom(LayerAt(dtb), mem, PML4, entry, SelfMapAddress(ref / 8, o)) == Found(ptr, 12)
            && Bit(ptr, 0) && Mask(ptr, 44, 12) == dtb
  {
    var a, ptr := SelfMapAddress(ref / 8, o), Pointer(mem[dtb..dtb + PAGE_SIZE], ref, 8);
    SelfMapFields(ref / 8, o);
    LevelBits();
    TopLevels();
    SelfMapRead(t, mem, PML4, entry, dtb, ref, a);
    SelfMapRead(t, mem, PDPT, ptr, dtb, ref, a);
    SelfMapRead(t, mem, PD, ptr, dtb, ref, a);
    SelfMapRead(t, mem, PT, ptr, dtb, ref, a);
  }

  lemma {:induction false} SelfMapInitialEntry(dtb: nat)
    requires dtb < 0x2000_0000_0000 && Mask(dtb, 44, 12) == dtb
    ensures Bit(LayerAt(dtb).InitialEntry(), 0) && Mask(LayerAt(dtb).InitialEntry(), 44, 12) == dtb
  {
    TopLevels();
    Pow2Values();
    LowSmall(dtb, 48);
    PresentBit(dtb, 12);
  }

  /** A walk that ends at a valid entry of the last level maps a four-kilobyte page. */
  lemma {:induction false} SmallPage(t: Tables, mem: seq<byte>, a: nat, entry: nat, frame: nat, o: nat)
    requires t.arch.system.Windows? && Bit(entry, 0)
    requires TranslateEntry(t, mem, t.PageBase(a)) == Found(entry, 12)
    requires Mask(entry, t.arch.maxPhys - 1, 12) == frame && Low(a, 12) == o
    ensures Translate(t, mem, a) == Page(frame, 12, frame + o)
  {
    FrameIsMask(entry, t.arch.maxPhys);
    OrSplit(Field(entry, 12, t.arch.maxPhys), 0, Low(a, 12), 12);
  }

  /** In the layer built on an accepted base below 2^45, the address that uses the
      accepted index at every level shows the table itself. */
  lemma {:induction false} AcceptedIsSelfMapped(t: DtbTest, data: seq<byte>, dataOffset: nat, pageOffset: nat, ref: nat,
                                                mem: seq<byte>, dtb: nat, o: nat)
    requires Is64Bit(t) && Accepts(t, data, dataOffset, pageOffset, ref) && o < PAGE_SIZE
    requires dtb == dataOffset + pageOffset < 0x2000_0000_0000
    requires dtb + PAGE_SIZE <= |mem| && mem[dtb..dtb + PAGE_SIZE] == PageOf(data, pageOffset)
    ensures Translate(LayerAt(dtb), mem, SelfMapAddress(ref / 8, o)) == Page(dtb, 12, dtb + o)
  {
    SelfMapTranslates(t, mem, dtb, ref, o);
  }

  /** Both 64-bit tests of the source are of this kind; the older one accepts one index. */
  lemma {:induction false} SelfRefTests(data: seq<byte>, dataOffset: nat, pageOffset: nat, ref: nat)
    ensures Is64Bit(SELF_REF_64) && Is64Bit(SELF_REF_64_OLD)
    ensures Accepts(SELF_REF_64_OLD, data, dataOffset, pageOffset, ref) ==> ref == 0x1ED * 8
    ensures Accepts(SELF_REF_64, data, dataOffset, pageOffset, ref) ==> 0x100 * 8 <= ref < 0x1FF * 8
  {
    assert ref / 8 * 8 <= ref;
  }

  lemma {:induction false} SelfMapAliases(mem: seq<byte>, dtb: nat, a: nat, b: nat, r: Translation)
    requires Translate(LayerAt(dtb), mem, a) == r && Low(a, 48) == Low(b, 48)
    ensures Translate(LayerAt(dtb), mem, b) == r
  {
    assert BitsLeft(WINDOWS_INTEL_32E.structure) == 48 by { TopLevels(); }
    AddressesAlias(LayerAt(dtb), mem, a, b);
  }

  /** Before the index was made random, an accepted table shows itself at a fixed address. */
  lemma {:induction false} OldSelfMapIsFixed(data: seq<byte>, dataOffset: nat, pageOffset: nat, ref: nat,
                                             mem: seq<byte>, dtb: nat, o: nat, a: nat)
    requires Accepts(SELF_REF_64_OLD, data, dataOffset, pageOffset, ref) && o < PAGE_SIZE
    requires dtb == dataOffset + pageOffset < 0x2000_0000_0000
    requires dtb + PAGE_SIZE <= |mem| && mem[dtb..dtb + PAGE_SIZE] == PageOf(data, pageOffset)
    requires a == 0xFFFF_F6FB_7DBE_D000 + o
    ensures Translate(LayerAt(dtb), mem, a) == Page(dtb, 12, dtb + o)
  {
    SelfRefTests(data, dataOffset, pageOffset, ref);
    AcceptedIsSelfMapped(SELF_REF_64_OLD, data, dataOffset, pageOffset, ref, mem, dtb, o);
    FixedAddress(ref / 8, o, a, 48);
    SelfMapAliases(mem, dtb, SelfMapAddress(ref / 8, o), a, Page(dtb, 12, dtb + o));
  }

  lemma {:induction false} FixedAddress(i: nat, o: nat, a: nat, n: nat)
    requires i == 0x1ED && o < PAGE_SIZE && a == 0xFFFF_F6FB_7DBE_D000 + o && n == 48
    ensures Low(SelfMapAddress(i, o), n) == Low(a, n)
  {
    var low := SelfMapAddress(i, o);
    assert Pow2(n) == 0x1_0000_0000_0000 by { Pow2Values(); }
    ShlIsMul(0xFFFF, n);
    Join(0xFFFF, low, n);
    LowSmall(low, n);
  }

  lemma {:induction false} SelfMapTranslates(t: DtbTest, mem: seq<byte>, dtb: nat, ref: nat, o: nat)
    requires Is64Bit(t) && dtb + PAGE_SIZE <= |mem| && dtb < 0x2000_0000_0000 && o < PAGE_SIZE
    requires SelfMapped(t, mem[dtb..dtb + PAGE_SIZE], dtb, ref)
    ensures Translate(LayerAt(dtb), mem, SelfMapAddress(ref / 8, o)) == Page(dtb, 12, dtb + o)
  {
    var ptr := SelfMapEntry(t, mem, dtb, ref, o);
    SmallPage(LayerAt(dtb), mem, SelfMapAddress(ref / 8, o), ptr, dtb, o);
  }

  lemma {:induction false} SelfMapEntry(t: DtbTest, mem: seq<byte>, dtb: nat, ref: nat, o: nat) returns (ptr: nat)
    requires Is64Bit(t) && dtb + PAGE_SIZE <= |mem| && dtb < 0x2000_0000_0000 && o < PAGE_SIZE
    requires SelfMapped(t, mem[dtb..dtb + PAGE_SIZE], dtb, ref)
    ensures var tables, a := LayerAt(dtb), SelfMapAddress(ref / 8, o);
            TranslateEntry(tables, mem, tables.PageBase(a)) == Found(ptr, 12) && Bit(ptr, 0) && Mask(ptr, 44, 12) == dtb
            && Low(a, 12) == o
  {
    var tables := LayerAt(dtb);
    SelfMapFields(ref / 8, o);
    ptr := Pointer(mem[dtb..dtb + PAGE_SIZE], ref, 8);
    SelfMappedEntry(t, mem[dtb..dtb + PAGE_SIZE], dtb, ref);
    SelfMapInitialEntry(dtb);
    SelfMapWalk(t, mem, tables.InitialEntry(), dtb, ref, o);
    TopLevels();
    WalkOfPageBase(tables, mem, SelfMapAddress(ref / 8, o));
  }
}
