/** The page-table walk of the Intel translation layers, as a function of the
    bytes of the physical layer. One definition serves the 32-bit, PAE and
    4-level formats and their Windows and Linux variants. */
module PageTables {
  import opened Bits
  import opened Memory
  import opened PagedSpace

  const PAGE_SIZE: nat := 4096

  datatype Level = Level(size: nat, large: bool)

  /** Which rule decides that an entry is valid and where its frame is. */
  datatype System = Plain | Windows | Linux

  datatype Parameters = Parameters(
    structure: seq<Level>,
    indexShift: nat,
    registerBits: nat,
    maxPhys: nat,
    maxVirt: nat,
    system: System)

  const INTEL := Parameters([Level(10, true), Level(10, false)], 2, 32, 32, 32, Plain)
  const INTEL_PAE := Parameters([Level(2, false), Level(9, true), Level(9, false)], 3, 32, 40, 32, Plain)
  const INTEL_32E := Parameters(
                       [Level(9, false), Level(9, true), Level(9, true), Level(9, false)], 3, 64, 52, 48, Plain)
  const WINDOWS_INTEL_32E := INTEL_32E.(system := Windows, maxPhys := 45)
  const LINUX_INTEL_PAE := INTEL_PAE.(system := Linux)

  /** Address bits still to be consumed before the tables in `levels` are walked. */
  function BitsLeft(levels: seq<Level>): (n: nat)
    ensures n >= 12
  {
    if levels == [] then 12 else levels[0].size + BitsLeft(levels[1..])
  }

  predicate LevelFits(p: Parameters, l: Level) {
    1 <= l.size && l.size + p.indexShift <= 12
  }

  predicate WellFormed(p: Parameters) {
    && 2 <= p.indexShift <= 3
    && 13 <= p.maxPhys && 13 <= p.registerBits
    && (forall i :: 0 <= i < |p.structure| ==> LevelFits(p, p.structure[i]))
    && BitsLeft(p.structure) == Min(p.maxVirt, p.registerBits)
  }

  lemma WidthAtLeast(levels: seq<Level>)
    ensures BitsLeft(levels) >= 12
  {
  }

  type Arch = p: Parameters | WellFormed(p) witness INTEL

  /** A translation layer: its format and its `page_map_offset`. */
  datatype Tables = Tables(arch: Arch, root: nat) {

    function EntrySize(): nat { Pow2(arch.indexShift) }

    function InitialEntry(): nat {
      Or(Mask(root, BitsLeft(arch.structure) - 1, 0), 1)
    }

    function MaximumAddress(): nat { Pow2(arch.maxVirt) - 1 }

    /** The mask of the address bits a layer up to `MaximumAddress` uses. */
    function AddressMask(): nat {
      WidthAtLeast(arch.structure);
      Pow2Mono(1, arch.maxVirt);
      Pow2(CeilLog2(MaximumAddress())) - 1
    }

    /** The test of an address against the range of the layer, whose minimum is 0. */
    predicate InRange(address: nat) {
      0 <= And(address, AddressMask()) <= MaximumAddress()
    }

    predicate PageIsValid(entry: nat) {
      match arch.system
      case Plain => Bit(entry, 0)
      case Windows => Bit(entry, 0) || (Bit(entry, 11) && !Bit(entry, 10))
      case Linux => Bit(entry, 0) || Bit(entry, 8)
    }

    /** The page frame number of a final entry. Linux inverts the entries of
        inaccessible pages and bounds the frame by the register width as well. */
    function PtePfn(entry: nat): nat {
      if arch.system.Linux? then
        var invert := entry != 0 && !Bit(entry, 0);
        Shr(And(Xor(entry, if invert then Pow2(arch.registerBits) - 1 else 0),
                XorMask(Min(arch.registerBits, arch.maxPhys) - 1, 12)), 12)
      else
        Shr(Mask(entry, arch.maxPhys - 1, 0), 12)
    }

    /** `offset & page_mask`; the Linux layers bound the mask by the register width. */
    function PageBase(offset: nat): nat {
      var base := Shl(Shr(offset, 12), 12);
      if arch.system.Linux? then Low(base, arch.registerBits) else base
    }
  }

  // ---- tables in memory ----

  function LittleEndian(s: seq<byte>): nat {
    if s == [] then 0 else s[0] + 256 * LittleEndian(s[1..])
  }

  /** Byte `i` holds bits `8 * i` to `8 * i + 7` of the number. */
  lemma {:induction false} LittleEndianByte(s: seq<byte>, i: nat, low: nat, n: nat)
    requires i < |s| && n == 8 && low == n * i
    ensures Field(LittleEndian(s), low, low + n) == s[i]
    decreases i
  {
    FirstByte(s, n);
    if i > 0 {
      LittleEndianByte(s[1..], i - 1, low - n, n);
      ShrShr(LittleEndian(s), n, low - n);
    }
  }

  lemma {:induction false} FirstByte(s: seq<byte>, n: nat)
    requires s != [] && n == 8
    ensures Low(LittleEndian(s), n) == s[0] && Shr(LittleEndian(s), n) == LittleEndian(s[1..])
  {
    assert Pow2(n) == 256 by { Pow2Values(); }
    ShlIsMul(LittleEndian(s[1..]), n);
    Join(LittleEndian(s[1..]), s[0], n);
  }

  function Repeat<T>(s: seq<T>, n: nat): (r: seq<T>)
    ensures |r| == n * |s|
  {
    if n == 0 then [] else s + Repeat(s, n - 1)
  }

  /** The table at `base`, unless it cannot be read or is one entry repeated. */
  function GetValidTable(t: Tables, mem: seq<byte>, base: nat): (table: Option<seq<byte>>)
    ensures table.Some? ==> |table.value| == PAGE_SIZE
  {
    if !Readable(mem, base, PAGE_SIZE) then None
    else
      var table := mem[base..base + PAGE_SIZE];
      EntrySizes(t);
      if table == Repeat(table[..t.EntrySize()], PAGE_SIZE / t.EntrySize()) then None else Some(table)
  }

  lemma {:induction false} EntrySizes(t: Tables)
    ensures t.EntrySize() == if t.arch.indexShift == 2 then 4 else 8
  {
    var two := 2;
    assert Pow2(two) == 4 && Pow2(two + 1) == 8;
  }

  // ---- the walk ----

  /** Where a walk ends: at an entry that maps a region of `2^bits` bytes, or at a
      fault that leaves the low `bits` address bits unresolved. */
  datatype Walk = Found(entry: nat, bits: nat) | Fault(entry: nat, bits: nat)

  /** The table index `address` selects when the levels `levels` remain. */
  function EntryIndex(levels: seq<Level>, address: nat): (i: nat)
    requires levels != []
    ensures i == Field(address, BitsLeft(levels[1..]), BitsLeft(levels)) < Pow2(levels[0].size)
  {
    var low := BitsLeft(levels[1..]);
    MaskIsField(address, BitsLeft(levels) - 1, low);
    Shr(Mask(address, BitsLeft(levels) - 1, low), low)
  }

  lemma {:induction false} MaskIsField(value: nat, high: nat, low: nat)
    requires low <= high + 1
    ensures Shr(Mask(value, high, low), low) == Field(value, low, high + 1)
  {
    Join(Field(value, low, high + 1), 0, low);
  }

  function TableEntry(t: Tables, table: seq<byte>, index: nat): nat
    requires index * t.EntrySize() + t.EntrySize() <= |table|
  {
    LittleEndian(table[index * t.EntrySize()..index * t.EntrySize() + t.EntrySize()])
  }

  lemma {:induction false} IndexFits(t: Tables, l: Level, index: nat)
    requires LevelFits(t.arch, l) && index < Pow2(l.size)
    ensures index * t.EntrySize() + t.EntrySize() <= PAGE_SIZE
  {
    Pow2Add(l.size, t.arch.indexShift);
    Pow2Mono(l.size + t.arch.indexShift, 12);
    SlotFits(index, Pow2(l.size), Pow2(t.arch.indexShift));
    PageSizeIsPow2();
  }

  lemma PageSizeIsPow2()
    ensures Pow2(12) == PAGE_SIZE
  {
  }

  /** Entry `index` of the table at `base`, if that table is present. */
  function ReadAt(t: Tables, mem: seq<byte>, base: nat, index: nat): Option<nat>
    requires index * t.EntrySize() + t.EntrySize() <= PAGE_SIZE
  {
    var table := GetValidTable(t, mem, base);
    if table.None? then None else Some(TableEntry(t, table.value, index))
  }

  /** The entry `address` selects in the table that `entry` points to. */
  function ReadEntry(t: Tables, mem: seq<byte>, levels: seq<Level>, entry: nat, address: nat): Option<nat>
    requires levels != [] && LevelFits(t.arch, levels[0])
  {
    IndexFits(t, levels[0], EntryIndex(levels, address));
    ReadAt(t, mem, Mask(entry, t.arch.maxPhys - 1, levels[0].size + t.arch.indexShift), EntryIndex(levels, address))
  }

  /** A final entry read through a large-page level, with the PAT bit cleared. */
  function ClearPat(entry: nat): nat {
    if Bit(entry, 12) then PatAtLeast(entry); entry - 0x1000 else entry
  }

  lemma {:induction false} PatAtLeast(entry: nat)
    requires Bit(entry, 12)
    ensures entry >= 0x1000
  {
    ShrIsDiv(entry, 12);
    PageSizeIsPow2();
  }

  predicate AllFit(t: Tables, levels: seq<Level>) {
    forall i :: 0 <= i < |levels| ==> LevelFits(t.arch, levels[i])
  }

  function WalkFrom(t: Tables, mem: seq<byte>, levels: seq<Level>, entry: nat, address: nat): (w: Walk)
    requires AllFit(t, levels)
    ensures 12 <= w.bits <= BitsLeft(levels)
    decreases |levels|
  {
    if levels == [] then Found(entry, 12)
    else if !t.PageIsValid(entry) then Fault(entry, BitsLeft(levels))
    else
      var next := ReadEntry(t, mem, levels, entry, address);
      if next.None? then Fault(entry, BitsLeft(levels))
      else if levels[0].large && Bit(next.value, 7) then Found(ClearPat(next.value), BitsLeft(levels[1..]))
      else WalkFrom(t, mem, levels[1..], next.value, address)
  }

  lemma WalkStep(t: Tables, mem: seq<byte>, levels: seq<Level>, entry: nat, address: nat)
    requires AllFit(t, levels) && levels != []
    ensures var next := ReadEntry(t, mem, levels, entry, address);
            WalkFrom(t, mem, levels, entry, address) ==
            if !t.PageIsValid(entry) || next.None? then Fault(entry, BitsLeft(levels))
            else if levels[0].large && Bit(next.value, 7) then Found(ClearPat(next.value), BitsLeft(levels[1..]))
            else WalkFrom(t, mem, levels[1..], next.value, address)
  {
  }

  /** The range test takes the address without the bits above the width of the layer, so it
      always passes. */
  lemma {:induction false} RangeTestPasses(t: Tables, address: nat)
    ensures And(address, t.AddressMask()) == Low(address, t.arch.maxVirt) && t.InRange(address)
  {
    CeilLog2OfOnes(t.arch.maxVirt);
    AndLowMask(address, t.arch.maxVirt);
  }

  function TranslateEntry(t: Tables, mem: seq<byte>, address: nat): (w: Walk)
    ensures 12 <= w.bits <= BitsLeft(t.arch.structure)
    ensures w == WalkFrom(t, mem, t.arch.structure, t.InitialEntry(), address)
  {
    RangeTestPasses(t, address);
    if !t.InRange(address) then Fault(t.InitialEntry(), BitsLeft(t.arch.structure))
    else WalkFrom(t, mem, t.arch.structure, t.InitialEntry(), address)
  }

  /** What the walk for the page of `offset` makes of `offset`. */
  function Resolve(t: Tables, w: Walk, offset: nat): (r: Translation)
    requires w.bits >= 12
    ensures r.bits == w.bits
  {
    if w.Fault? || !t.PageIsValid(w.entry) then Unmapped(w.entry, w.bits)
    else
      var frame := Shl(t.PtePfn(w.entry), 12);
      Page(frame, w.bits, Or(frame, Mask(offset, w.bits - 1, 0)))
  }

  function Translate(t: Tables, mem: seq<byte>, offset: nat): (r: Translation)
    ensures r.bits >= 12
  {
    Resolve(t, TranslateEntry(t, mem, t.PageBase(offset)), offset)
  }

  // ---- a walk looks only at the bits above the region it ends in ----

  /** `a` and `b` agree on the bits from `low` up to the width of the walk. */
  predicate SameRegion(t: Tables, a: nat, b: nat, low: nat) {
    var top := BitsLeft(t.arch.structure);
    low <= top && Field(a, low, top) == Field(b, low, top)
  }

  lemma {:induction false} WalkLocal(t: Tables, mem: seq<byte>, levels: seq<Level>, entry: nat, a: nat, b: nat)
    requires AllFit(t, levels)
    requires var n := WalkFrom(t, mem, levels, entry, a).bits;
             Field(a, n, BitsLeft(levels)) == Field(b, n, BitsLeft(levels))
    ensures WalkFrom(t, mem, levels, entry, a) == WalkFrom(t, mem, levels, entry, b)
    decreases |levels|
  {
    if levels != [] && t.PageIsValid(entry) {
      var next := ReadEntry(t, mem, levels, entry, a);
      if next.Some? {
        var n, low, top := WalkFrom(t, mem, levels, entry, a).bits, BitsLeft(levels[1..]), BitsLeft(levels);
        FieldOfField(a, n, top, low, top);
        FieldOfField(b, n, top, low, top);
        if !(levels[0].large && Bit(next.value, 7)) {
          FieldOfField(a, n, top, n, low);
          FieldOfField(b, n, top, n, low);
          WalkLocal(t, mem, levels[1..], next.value, a, b);
        }
      }
    }
  }

  lemma {:induction false} PageBaseRegion(t: Tables, offset: nat, low: nat)
    requires 12 <= low <= BitsLeft(t.arch.structure)
    ensures SameRegion(t, t.PageBase(offset), offset, low)
  {
    var top := BitsLeft(t.arch.structure);
    FieldOfFloor(offset, 12, low, top);
    if t.arch.system.Linux? {
      FieldOfLow(Shl(Shr(offset, 12), 12), t.arch.registerBits, low, top);
    }
  }

  /** The walk is cached under the page base; nothing is lost by that key. */
  lemma {:induction false} WalkOfPageBase(t: Tables, mem: seq<byte>, offset: nat)
    ensures TranslateEntry(t, mem, t.PageBase(offset)) == TranslateEntry(t, mem, offset)
  {
    PageBaseRegion(t, offset, TranslateEntry(t, mem, offset).bits);
    WalkLocal(t, mem, t.arch.structure, t.InitialEntry(), offset, t.PageBase(offset));
  }

  /** Every address in the region a translation ends in has the same outcome: the
      same fault with the same unresolved bits, or the same frame and size. */
  lemma {:induction false} TranslationLocal(t: Tables, mem: seq<byte>, a: nat, b: nat)
    requires SameRegion(t, a, b, Translate(t, mem, a).bits)
    ensures SameOutcome(Translate(t, mem, a), Translate(t, mem, b))
  {
    WalkOfPageBase(t, mem, a);
    WalkOfPageBase(t, mem, b);
    WalkLocal(t, mem, t.arch.structure, t.InitialEntry(), a, b);
  }

  /** The translation of every address, over a fixed physical memory. */
  function Translator(t: Tables, mem: seq<byte>): nat -> Translation {
    (a: nat) => Translate(t, mem, a)
  }

  /** `tr` is the translation of every address over `mem`. */
  ghost predicate IsTranslation(tr: nat -> Translation, t: Tables, mem: seq<byte>) {
    forall a: nat {:trigger Translate(t, mem, a)} :: tr(a) == Translate(t, mem, a)
  }

  lemma TranslatorIsTranslation(t: Tables, mem: seq<byte>)
    ensures IsTranslation(Translator(t, mem), t, mem)
  {
  }

  /** The page-table walk divides the address space into regions that translate together. */
  lemma {:induction false} TranslatorIsPaged(t: Tables, mem: seq<byte>)
    ensures Paged(Translator(t, mem))
  {
    var tr := Translator(t, mem);
    forall a: nat, b: nat
      ensures Agree(tr, a, b)
    {
      if Shr(a, tr(a).bits) == Shr(b, tr(a).bits) {
        TranslationLocal(t, mem, a, b);
      }
    }
    forall a: nat
      ensures Shaped(tr, a)
    {
      if tr(a).Page? {
        Join(t.PtePfn(TranslateEntry(t, mem, t.PageBase(a)).entry), 0, 12);
      }
    }
  }

  /** No range test keeps high addresses out: addresses that differ above the width of the
      layer alias. */
  lemma {:induction false} AddressesAlias(t: Tables, mem: seq<byte>, a: nat, b: nat)
    requires var top := BitsLeft(t.arch.structure); Low(a, top) == Low(b, top)
    ensures Translate(t, mem, a) == Translate(t, mem, b)
  {
    var top, n := BitsLeft(t.arch.structure), Translate(t, mem, a).bits;
    FieldOfLow(a, top, n, top);
    FieldOfLow(b, top, n, top);
    TranslationLocal(t, mem, a, b);
    LowLow(a, top, n);
    LowLow(b, top, n);
  }

  /** The Linux layers cut frames to the width of the register too. In a PAE layer a present
      entry keeps its frame exactly when the frame lies below four gigabytes. */
  lemma {:induction false} LinuxPaeFrames(root: nat, entry: nat)
    requires Bit(entry, 0)
    ensures Tables(LINUX_INTEL_PAE, root).PtePfn(entry) == Field(entry, 12, 32)
    ensures Tables(INTEL_PAE, root).PtePfn(entry) == Field(entry, 12, 40)
    ensures Tables(LINUX_INTEL_PAE, root).PtePfn(entry) == Tables(INTEL_PAE, root).PtePfn(entry)
            <==> Field(entry, 32, 40) == 0
  {
    MaskIsXorMask(entry, 31, 12);
    MaskIsField(entry, 31, 12);
    FieldAboveZero(entry, 12, 40);
    FieldParts(entry, 12, 32, 40);
  }

  lemma {:induction false} FourGigabytes(entry: nat, n: nat)
    requires entry == 0x1_0000_0001 && n == 12
    ensures Shr(entry, n) == 0x10_0000
  {
    assert Pow2(n) == 0x1000 by { Pow2Values(); }
    ShrIsDiv(entry, n);
  }

  lemma {:induction false} PowerParts(frame: nat, n: nat, m: nat)
    requires frame == Pow2(n) && n < m
    ensures Low(frame, n) == 0 && Low(frame, m) == frame
  {
    ShlIsMul(1, n);
    Join(1, 0, n);
    Pow2Mono(n + 1, m);
    LowSmall(frame, m);
  }

  /** A present entry that names the frame at four gigabytes: the Linux layer takes it for frame 0. */
  lemma {:induction false} LinuxPaeCutsFrame(root: nat, entry: nat)
    requires entry == 0x1_0000_0001
    ensures Bit(entry, 0) && Tables(LINUX_INTEL_PAE, root).PtePfn(entry) == 0
    ensures Tables(INTEL_PAE, root).PtePfn(entry) == 0x10_0000
  {
    FourGigabytes(entry, 12);
    assert Pow2(20) == 0x10_0000 by { Pow2Values(); }
    PowerParts(Shr(entry, 12), 20, 28);
    LinuxPaeFrames(root, entry);
  }

  lemma {:induction false} FieldAboveZero(value: nat, low: nat, high: nat)
    requires low <= high && 1 <= high
    ensures Shr(Mask(value, high - 1, 0), low) == Field(value, low, high)
  {
    ShrLow(value, low, high - low);
  }

  /** A field is its lower part if and only if its upper part is zero. */
  lemma {:induction false} FieldParts(x: nat, low: nat, mid: nat, high: nat)
    requires low <= mid <= high
    ensures Field(x, low, mid) == Field(x, low, high) <==> Field(x, mid, high) == 0
  {
    var f, n := Field(x, low, high), mid - low;
    assert Field(x, low, mid) == Low(f, n) by { LowLow(Shr(x, low), high - low, n); }
    assert Field(x, mid, high) == Shr(f, n) by {
      FieldOfField(x, low, high, mid, high);
      LowSmallShr(f, n, high - mid);
    }
    WholeIffLow(f, n);
  }

  lemma {:induction false} WholeIffLow(f: nat, n: nat)
    ensures Low(f, n) == f <==> Shr(f, n) == 0
  {
    Split(f, n);
    ShlIsMul(Shr(f, n), n);
  }

  lemma {:induction false} LowSmallShr(f: nat, n: nat, m: nat)
    requires f < Pow2(n + m)
    ensures Low(Shr(f, n), m) == Shr(f, n)
  {
    ShrLow(f, n, m);
    LowSmall(f, n + m);
  }
}
