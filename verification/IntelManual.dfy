/** The paging structures as the Intel SDM (Volume 3A) describes them: section 4.3
    (32-bit paging with large pages, without PSE-36), section 4.4 (PAE paging) and
    section 4.5 (4-level paging), stage by stage and with the reserved bits of every
    entry; execute-disable is taken as enabled. A stage reads one entry; an entry outside
    the memory maps nothing. The walk of `PageTables` reads whole tables of 4 KiB and
    takes one that leaves the memory, or that is one entry repeated, as missing. Where the
    manual maps an address the walk maps it to the same place exactly if it misses no
    table, and it maps more exactly where an entry it uses sets a reserved bit. */
module IntelManual {
  import opened Bits
  import opened Memory
  import opened PagedSpace
  import opened PageTables

  function Slot(s: seq<byte>, k: nat, size: nat): seq<byte> {
    if k * size + size <= |s| then s[k * size..k * size + size] else []
  }

  /** All entries of `size` bytes in the table are the same. */
  ghost predicate OneEntryRepeated(table: seq<byte>, size: nat)
    requires size > 0
  {
    forall k: nat :: k < |table| / size ==> Slot(table, k, size) == Slot(table, 0, size)
  }

  /** The memory holds all 4 KiB from `base`, and they are not one entry repeated. */
  ghost predicate TableThere(mem: seq<byte>, base: nat, size: nat)
    requires size > 0
  {
    base + PAGE_SIZE <= |mem| && !OneEntryRepeated(mem[base..base + PAGE_SIZE], size)
  }

  /** Entry `index` of the table at `base`, if the memory holds it. */
  ghost function Entry(mem: seq<byte>, base: nat, index: nat, size: nat): Option<nat>
  {
    var at := base + index * size;
    if at + size <= |mem| then Some(LittleEndian(mem[at..at + size])) else None
  }

  /** The PS flag: the entry maps a page rather than a table. */
  predicate MapsPage(e: nat) {
    Bit(e, 7)
  }

  // ---- reserved bits; `m` is MAXPHYADDR ----

  datatype Format = ThirtyTwoBit | Pae | FourLevel

  /** Whether an entry that leaves `bits` address bits sets a bit the manual reserves: in
      an entry that maps a page, frame bits below the page size; bits above the physical
      address; the PS flag of a PML4 entry; several low bits of a PAE PDPTE. */
  predicate Reserved(f: Format, m: nat, bits: nat, e: nat)
    requires m <= 52 && bits >= 12
  {
    match f
    case ThirtyTwoBit => bits == 22 && MapsPage(e) && Field(e, 13, 22) != 0
    case Pae =>
      if bits == 30 then Field(e, 1, 3) != 0 || Field(e, 5, 9) != 0 || Field(e, m, 64) != 0
      else Field(e, m, 63) != 0 || (bits > 12 && MapsPage(e) && Field(e, 13, bits) != 0)
    case FourLevel =>
      Field(e, m, 52) != 0 || (bits > 12 && MapsPage(e) && (bits == 39 || Field(e, 13, bits) != 0))
  }

  /** An entry that is there, present, and sets no reserved bit. */
  predicate Usable(f: Format, m: nat, bits: nat, e: Option<nat>)
    requires m <= 52 && bits >= 12
  {
    e.Some? && Bit(e.value, 0) && !Reserved(f, m, bits, e.value)
  }

  // ---- the stages ----

  ghost function FromPte(f: Format, mem: seq<byte>, table: nat, a: nat, m: nat): Option<nat>
    requires 30 < m <= 52
  {
    var pte := Entry(mem, table, Field(a, 12, 21), 8);
    if !Usable(f, m, 12, pte) then None else Some(Mask(pte.value, m - 1, 12) + Low(a, 12))
  }

  ghost function FromPde(f: Format, mem: seq<byte>, table: nat, a: nat, m: nat): Option<nat>
    requires 30 < m <= 52
  {
    var pde := Entry(mem, table, Field(a, 21, 30), 8);
    if !Usable(f, m, 21, pde) then None
    else if MapsPage(pde.value) then Some(Mask(pde.value, m - 1, 21) + Low(a, 21))
    else FromPte(f, mem, Mask(pde.value, m - 1, 12), a, m)
  }

  ghost function FromPdpte(mem: seq<byte>, table: nat, a: nat, m: nat): Option<nat>
    requires 30 < m <= 52
  {
    var pdpte := Entry(mem, table, Field(a, 30, 39), 8);
    if !Usable(FourLevel, m, 30, pdpte) then None
    else if MapsPage(pdpte.value) then Some(Mask(pdpte.value, m - 1, 30) + Low(a, 30))
    else FromPde(FourLevel, mem, Mask(pdpte.value, m - 1, 12), a, m)
  }

  /** Section 4.5: where 4-level paging with the table root `cr3` maps `a`. */
  ghost function FourLevelMaps(mem: seq<byte>, cr3: nat, a: nat, m: nat): Option<nat>
    requires 30 < m <= 52
  {
    var pml4e := Entry(mem, Mask(cr3, m - 1, 12), Field(a, 39, 48), 8);
    if !Usable(FourLevel, m, 39, pml4e) then None else FromPdpte(mem, Mask(pml4e.value, m - 1, 12), a, m)
  }

  /** Section 4.4: the same for PAE paging. */
  ghost function PaeMaps(mem: seq<byte>, cr3: nat, a: nat, m: nat): Option<nat>
    requires 30 < m <= 52
  {
    var pdpte := Entry(mem, Mask(cr3, 31, 5), Field(a, 30, 32), 8);
    if !Usable(Pae, m, 30, pdpte) then None else FromPde(Pae, mem, Mask(pdpte.value, m - 1, 12), a, m)
  }

  ghost function FromShortPte(mem: seq<byte>, table: nat, a: nat): Option<nat> {
    var pte := Entry(mem, table, Field(a, 12, 22), 4);
    if !Usable(ThirtyTwoBit, 32, 12, pte) then None else Some(Mask(pte.value, 31, 12) + Low(a, 12))
  }

  /** Section 4.3: the same for 32-bit paging. */
  ghost function ThirtyTwoBitMaps(mem: seq<byte>, cr3: nat, a: nat): Option<nat> {
    var pde := Entry(mem, Mask(cr3, 31, 12), Field(a, 22, 32), 4);
    if !Usable(ThirtyTwoBit, 32, 22, pde) then None
    else if MapsPage(pde.value) then Some(Mask(pde.value, 31, 22) + Low(a, 22))
    else FromShortPte(mem, Mask(pde.value, 31, 12), a)
  }

  // ---- the same tables ----

  lemma {:induction false} SlotShift(table: seq<byte>, k: nat, n: nat, size: nat)
    requires |table| == n * size && k + 1 < n
    ensures size <= |table| && Slot(table, k + 1, size) == Slot(table[size..], k, size)
  {
    var at := k * size;
    assert (k + 1) * size == at + size;
    SlotFits(k + 1, n, size);
    assert |table[size..]| == |table| - size;
    assert table[size..][at..at + size] == table[at + size..at + size + size];
  }

  lemma {:induction false} SlotOfRepeat(s: seq<byte>, n: nat, k: nat)
    requires k < n
    ensures Slot(Repeat(s, n), k, |s|) == s
  {
    if k == 0 {
      SlotFits(0, n, |s|);
    } else {
      SlotOfRepeat(s, n - 1, k - 1);
      SlotShift(Repeat(s, n), k - 1, n, |s|);
      assert Repeat(s, n)[|s|..] == Repeat(s, n - 1);
    }
  }

  lemma {:induction false} RepeatOfSlots(table: seq<byte>, s: seq<byte>, n: nat)
    requires |table| == n * |s|
    requires forall k :: 0 <= k < n ==> Slot(table, k, |s|) == s
    ensures table == Repeat(s, n)
  {
    if n > 0 {
      var size := |s|;
      SlotFits(0, n, size);
      assert Slot(table, 0, size) == table[..size];
      var rest := table[size..];
      forall k | 0 <= k < n - 1 ensures Slot(rest, k, size) == s {
        SlotShift(table, k, n, size);
      }
      assert (n - 1) * size == n * size - size;
      RepeatOfSlots(rest, s, n - 1);
    }
  }

  lemma {:induction false} SameTables(t: Tables, mem: seq<byte>, base: nat)
    ensures t.EntrySize() > 0
    ensures GetValidTable(t, mem, base).Some? <==> TableThere(mem, base, t.EntrySize())
  {
    EntrySizes(t);
    if base + PAGE_SIZE <= |mem| {
      var table, es := mem[base..base + PAGE_SIZE], t.EntrySize();
      assert Slot(table, 0, es) == table[..es];
      var n := PAGE_SIZE / es;
      if table == Repeat(table[..es], n) {
        forall k: nat | k < n ensures Slot(table, k, es) == table[..es] {
          SlotOfRepeat(table[..es], n, k);
        }
      } else if OneEntryRepeated(table, es) {
        RepeatOfSlots(table, table[..es], n);
      }
    }
  }

  lemma {:induction false} SlotInMemory(mem: seq<byte>, base: nat, at: nat, size: nat, length: nat)
    requires at + size <= length && base + length <= |mem|
    ensures mem[base..base + length][at..at + size] == mem[base + at..base + at + size]
  {
    var part := mem[base..base + length];
    var slot, bytes := part[at..at + size], mem[base + at..base + at + size];
    forall k | 0 <= k < size ensures slot[k] == bytes[k] {
      assert slot[k] == part[at + k];
    }
  }

  lemma {:induction false} SameRead(t: Tables, mem: seq<byte>, base: nat, index: nat)
    requires index * t.EntrySize() + t.EntrySize() <= PAGE_SIZE && t.EntrySize() > 0
    ensures ReadAt(t, mem, base, index)
            == if TableThere(mem, base, t.EntrySize()) then Entry(mem, base, index, t.EntrySize()) else None
    ensures TableThere(mem, base, t.EntrySize()) ==> Entry(mem, base, index, t.EntrySize()).Some?
  {
    SameTables(t, mem, base);
    if TableThere(mem, base, t.EntrySize()) {
      SlotInMemory(mem, base, index * t.EntrySize(), t.EntrySize(), PAGE_SIZE);
    }
  }

  /** The table base that `entry` names for the walk. */
  function TableBase(t: Tables, l: Level, entry: nat): nat
    requires LevelFits(t.arch, l)
  {
    Mask(entry, t.arch.maxPhys - 1, l.size + t.arch.indexShift)
  }

  /** The walk reads the entry the manual names, unless it misses the table. */
  lemma {:induction false} SameEntry(t: Tables, mem: seq<byte>, levels: seq<Level>, entry: nat, a: nat)
    requires levels != [] && LevelFits(t.arch, levels[0])
    ensures t.EntrySize() > 0
    ensures var base := TableBase(t, levels[0], entry);
            var e := Entry(mem, base, Field(a, BitsLeft(levels[1..]), BitsLeft(levels)), t.EntrySize());
            && ReadEntry(t, mem, levels, entry, a) == (if TableThere(mem, base, t.EntrySize()) then e else None)
            && (TableThere(mem, base, t.EntrySize()) ==> e.Some?)
  {
    EntrySizes(t);
    IndexFits(t, levels[0], EntryIndex(levels, a));
    SameRead(t, mem, TableBase(t, levels[0], entry), EntryIndex(levels, a));
  }

  // ---- frames ----

  /** The frame a final entry names in the formats without an operating-system rule. */
  function FrameOf(e: nat, m: nat): nat
    requires m >= 12
  {
    Shl(Shr(Mask(e, m - 1, 0), 12), 12)
  }

  lemma {:induction false} FrameIsMask(e: nat, m: nat)
    requires m >= 12
    ensures FrameOf(e, m) == Mask(e, m - 1, 12)
  {
    ShrLow(e, 12, m - 12);
  }

  lemma {:induction false} ClearPatHigh(e: nat)
    requires Bit(e, 12)
    ensures e >= 0x1000 && Shr(e - 0x1000, 12) == Shr(e, 12) - 1
  {
    PatAtLeast(e);
    ShiftTwelve(e);
    ShiftTwelve(e - 0x1000);
  }

  lemma {:induction false} ShiftTwelve(x: nat)
    ensures Shr(x, 12) == x / 0x1000
  {
    ShrIsDiv(x, 12);
    PageSizeIsPow2();
  }

  lemma {:induction false} ClearPatKeeps(e: nat, n: nat)
    requires n >= 13
    ensures Shr(ClearPat(e), n) == Shr(e, n)
    ensures Bit(ClearPat(e), 0) == Bit(e, 0)
  {
    if Bit(e, 12) {
      ClearPatHigh(e);
      ShrFromTwelve(e, e - 0x1000, n);
    }
  }

  lemma {:induction false} ShrFromTwelve(e: nat, e': nat, n: nat)
    requires n >= 13 && Shr(e, 12) % 2 == 1 && Shr(e', 12) == Shr(e, 12) - 1
    ensures Shr(e', n) == Shr(e, n)
  {
    var h, k := Shr(e, 12), n - 12;
    ShrShr(e, 12, k);
    ShrShr(e', 12, k);
    ShrOddPred(h, k);
  }

  /** The frame of a large page sets no bits below the page size if its entry sets none of
      those above the PAT bit. */
  lemma {:induction false} UnreservedIsAligned(e: nat, m: nat, n: nat)
    requires 13 <= n <= m && Field(e, 13, n) == 0
    ensures Low(FrameOf(ClearPat(e), m), n) == 0
  {
    var e' := ClearPat(e);
    var h, k := Shr(e', 12), n - 12;
    PatIsClear(e);
    ShrShr(e', 12, 1);
    assert Shr(h, 1) == h / 2;
    ClearPatKeeps(e, 13);
    assert Low(h, k) == 2 * Field(e, 13, n) == 0;
    FrameIsMask(e', m);
    LowLow(h, m - 12, k);
    LowOfShl(Field(e', 12, m), 12, k);
  }

  lemma {:induction false} PatIsClear(e: nat)
    ensures !Bit(ClearPat(e), 12)
  {
    if Bit(e, 12) { ClearPatHigh(e); }
  }

  lemma {:induction false} LowOfShl(x: nat, n: nat, k: nat)
    requires Low(x, k) == 0
    ensures Low(Shl(x, n), n + k) == 0
  {
    if n > 0 { LowOfShl(x, n - 1, k); }
  }

  lemma {:induction false} LargeFrame(e: nat, m: nat, n: nat)
    requires 13 <= n <= m && Field(e, 13, n) == 0
    ensures FrameOf(ClearPat(e), m) == Mask(e, m - 1, n)
  {
    var e' := ClearPat(e);
    UnreservedIsAligned(e, m, n);
    FrameIsMask(e', m);
    Split(Mask(e', m - 1, 12), n);
    ShrMask(e', m - 1, 12, n);
    ClearPatKeeps(e, n);
  }

  // ---- the stages agree ----

  /** A table a walk uses, the entry it reads there unless it misses the table, and the
      number of address bits that entry leaves. */
  datatype Use = Use(bits: nat, table: nat, entry: Option<nat>)

  /** The tables and entries the walk uses on its way, in order. */
  function Uses(t: Tables, mem: seq<byte>, levels: seq<Level>, entry: nat, a: nat): (us: seq<Use>)
    requires AllFit(t, levels)
    ensures forall u :: u in us ==> u.bits >= 12
    decreases |levels|
  {
    if levels == [] || !t.PageIsValid(entry) then []
    else
      var next := ReadEntry(t, mem, levels, entry, a);
      var use := Use(BitsLeft(levels[1..]), TableBase(t, levels[0], entry), next);
      if next.None? || (levels[0].large && Bit(next.value, 7)) then [use]
      else [use] + Uses(t, mem, levels[1..], next.value, a)
  }

  /** The entry a walk ends with and the bits it leaves: those of the last entry read, or of the
      first entry of the walk if none is read. */
  predicate EndsWith(w: Walk, us: seq<Use>, entry: nat, bits: nat) {
    if us == [] then w.entry == entry && w.bits == bits
    else
      var u := us[|us| - 1];
      if u.entry.None? then w.Fault? && EndsWith(w, us[..|us| - 1], entry, bits)
      else
        && w.bits == u.bits
        && (w.entry == u.entry.value || (w.Found? && Bit(u.entry.value, 7) && w.entry == ClearPat(u.entry.value)))
  }

  lemma {:induction false} EndsWithMore(w: Walk, u: Use, us: seq<Use>, entry: nat, bits: nat)
    requires u.entry.Some? && EndsWith(w, us, u.entry.value, u.bits)
    ensures EndsWith(w, [u] + us, entry, bits)
    decreases |us|
  {
    var all := [u] + us;
    if us == [] {
      assert all[|all| - 1] == u;
    } else {
      var n := |us| - 1;
      assert all[..|all| - 1] == [u] + us[..n];
      if us[n].entry.None? { EndsWithMore(w, u, us[..n], entry, bits); }
    }
  }

  /** A page fault names the last entry that was read, and the address bits it leaves; a table that
      is missing is a fault of the entry that points to it. */
  lemma {:induction false} WalkNamesLastEntry(t: Tables, mem: seq<byte>, levels: seq<Level>, entry: nat, a: nat)
    requires AllFit(t, levels)
    ensures EndsWith(WalkFrom(t, mem, levels, entry, a), Uses(t, mem, levels, entry, a), entry, BitsLeft(levels))
    decreases |levels|
  {
    if levels != [] && t.PageIsValid(entry) {
      var next := ReadEntry(t, mem, levels, entry, a);
      var use := Use(BitsLeft(levels[1..]), TableBase(t, levels[0], entry), next);
      if next.None? || (levels[0].large && Bit(next.value, 7)) {
        assert [use][..0] == [];
      } else {
        WalkNamesLastEntry(t, mem, levels[1..], next.value, a);
        EndsWithMore(WalkFrom(t, mem, levels[1..], next.value, a), use, Uses(t, mem, levels[1..], next.value, a), entry,
            BitsLeft(levels));
      }
    }
  }

  lemma {:induction false} FaultNamesLastEntry(t: Tables, mem: seq<byte>, a: nat)
    requires Translate(t, mem, a).Unmapped?
    ensures var r := Translate(t, mem, a);
            EndsWith(Fault(r.entry, r.bits), UsesOf(t, mem, a), t.InitialEntry(), BitsLeft(t.arch.structure))
            || EndsWith(Found(r.entry, r.bits), UsesOf(t, mem, a), t.InitialEntry(), BitsLeft(t.arch.structure))
  {
    WalkOfPageBase(t, mem, a);
    WalkNamesLastEntry(t, mem, t.arch.structure, t.InitialEntry(), a);
  }

  predicate Unreserved(f: Format, m: nat, us: seq<Use>)
    requires m <= 52 && forall u :: u in us ==> u.bits >= 12
  {
    forall u :: u in us && u.entry.Some? ==> !Reserved(f, m, u.bits, u.entry.value)
  }

  ghost predicate AllThere(mem: seq<byte>, size: nat, us: seq<Use>)
    requires size > 0
  {
    forall u :: u in us ==> TableThere(mem, u.table, size)
  }

  /** What the manual maps the walk maps, to the same place, exactly if every table it uses is
      there; and what the walk maps the manual maps exactly if no entry used sets a reserved bit. */
  ghost predicate Agrees(t: Tables, f: Format, mem: seq<byte>, r: Translation, us: seq<Use>, manual: Option<nat>)
    requires t.arch.maxPhys <= 52 && t.EntrySize() > 0 && forall u :: u in us ==> u.bits >= 12
  {
    && (manual.Some? && r.Page? ==> r.address == manual.value)
    && (manual.Some? ==> (r.Page? <==> AllThere(mem, t.EntrySize(), us)))
    && (r.Page? ==> (manual.Some? <==> Unreserved(f, t.arch.maxPhys, us)))
  }

  ghost predicate WalkAgrees(t: Tables, f: Format, mem: seq<byte>, levels: seq<Level>, entry: nat, a: nat,
                             manual: Option<nat>)
    requires AllFit(t, levels) && t.arch.maxPhys <= 52 && t.EntrySize() > 0
  {
    Agrees(t, f, mem, Resolve(t, WalkFrom(t, mem, levels, entry, a), a), Uses(t, mem, levels, entry, a), manual)
  }

  const PT := [Level(9, false)]
  const PD := [Level(9, true)] + PT
  const PDPT := [Level(9, true)] + PD

  /** An entry that maps a page of `2^n` bytes, as the last entry of a walk. */
  lemma {:induction false} PageAgrees(t: Tables, f: Format, mem: seq<byte>, w: Walk, base: nat, e: nat, a: nat,
                                      n: nat, m: nat)
    requires t.arch.system.Plain? && t.arch.maxPhys == m && 12 <= n <= m <= 52 && t.EntrySize() > 0
    requires if n == 12 then w == Found(e, 12) else w == Found(ClearPat(e), n) && Bit(e, 7)
    requires !Reserved(f, m, n, e) && n > 12 ==> Field(e, 13, n) == 0
    requires TableThere(mem, base, t.EntrySize())
    ensures Agrees(t, f, mem, Resolve(t, w, a), [Use(n, base, Some(e))],
                   if Usable(f, m, n, Some(e)) then Some(Mask(e, m - 1, n) + Low(a, n)) else None)
  {
    OneUse(f, m, n, base, e);
    FrameIsMask(e, m);
    OrSplit(Field(e, n, m), 0, Low(a, n), n);
    if n > 12 {
      ClearPatKeeps(e, n);
      if !Reserved(f, m, n, e) { LargeFrame(e, m, n); }
    }
  }

  lemma {:induction false} OneUse(f: Format, m: nat, n: nat, base: nat, e: nat)
    requires m <= 52 && n >= 12
    ensures Unreserved(f, m, [Use(n, base, Some(e))]) <==> !Reserved(f, m, n, e)
  {
    assert Use(n, base, Some(e)) in [Use(n, base, Some(e))];
  }

  lemma {:induction false} MoreUses(f: Format, m: nat, mem: seq<byte>, size: nat, u: Use, us: seq<Use>)
    requires m <= 52 && size > 0 && u.entry.Some? && u.bits >= 12 && forall v :: v in us ==> v.bits >= 12
    ensures Unreserved(f, m, [u] + us) <==> !Reserved(f, m, u.bits, u.entry.value) && Unreserved(f, m, us)
    ensures AllThere(mem, size, [u] + us) <==> TableThere(mem, u.table, size) && AllThere(mem, size, us)
  {
    assert ([u] + us)[0] == u;
    assert forall v :: v in us ==> v in [u] + us;
  }

  lemma {:induction false} OneMissing(mem: seq<byte>, size: nat, u: Use)
    requires size > 0 && !TableThere(mem, u.table, size)
    ensures !AllThere(mem, size, [u])
  {
    assert u in [u];
  }

  /** The step from an entry that points to a table to the walk through that table. */
  lemma {:induction false} TableAgrees(t: Tables, f: Format, mem: seq<byte>, levels: seq<Level>, n: nat, base: nat,
                                       e: nat, a: nat, manual: Option<nat>)
    requires AllFit(t, levels) && t.arch.system.Plain? && t.arch.maxPhys <= 52 && n >= 12 && levels != []
    requires t.EntrySize() > 0 && TableThere(mem, base, t.EntrySize())
    requires Bit(e, 0) ==> WalkAgrees(t, f, mem, levels, e, a, manual)
    ensures Agrees(t, f, mem, Resolve(t, WalkFrom(t, mem, levels, e, a), a),
                   [Use(n, base, Some(e))] + Uses(t, mem, levels, e, a),
                   if Usable(f, t.arch.maxPhys, n, Some(e)) then manual else None)
  {
    MoreUses(f, t.arch.maxPhys, mem, t.EntrySize(), Use(n, base, Some(e)), Uses(t, mem, levels, e, a));
    if !Bit(e, 0) { WalkStep(t, mem, levels, e, a); }
  }

  /** One step of a walk: the entry the manual names, or a missing table. */
  lemma {:induction false} TableStep(t: Tables, mem: seq<byte>, levels: seq<Level>, e: nat, a: nat, size: nat)
    returns (base: nat, next: Option<nat>)
    requires AllFit(t, levels) && levels != [] && t.PageIsValid(e) && size == t.EntrySize() > 0
    ensures base == TableBase(t, levels[0], e)
    ensures next.Some? <==> TableThere(mem, base, size)
    ensures next.Some? ==> next == Entry(mem, base, Field(a, BitsLeft(levels[1..]), BitsLeft(levels)), size)
    ensures var n := BitsLeft(levels[1..]);
            && (next.None? ==>
                  && WalkFrom(t, mem, levels, e, a) == Fault(e, BitsLeft(levels))
                  && Uses(t, mem, levels, e, a) == [Use(n, base, None)])
            && (next.Some? && levels[0].large && Bit(next.value, 7) ==>
                  && WalkFrom(t, mem, levels, e, a) == Found(ClearPat(next.value), n)
                  && Uses(t, mem, levels, e, a) == [Use(n, base, next)])
            && (next.Some? && !(levels[0].large && Bit(next.value, 7)) ==>
                  && WalkFrom(t, mem, levels, e, a) == WalkFrom(t, mem, levels[1..], next.value, a)
                  && Uses(t, mem, levels, e, a) == [Use(n, base, next)] + Uses(t, mem, levels[1..], next.value, a))
  {
    WalkStep(t, mem, levels, e, a);
    SameEntry(t, mem, levels, e, a);
    base, next := TableBase(t, levels[0], e), ReadEntry(t, mem, levels, e, a);
  }

  predicate EightByte(t: Tables) {
    t.arch.system.Plain? && t.arch.indexShift == 3 && 30 < t.arch.maxPhys <= 52 && t.EntrySize() == 8
  }

  lemma LevelBits()
    ensures BitsLeft([]) == 12 && BitsLeft(PT) == 21 && BitsLeft(PD) == 30 && BitsLeft(PDPT) == 39
    ensures PT[1..] == [] && PD[1..] == PT && PDPT[1..] == PD
  {
  }

  lemma {:induction false} PteAgrees(t: Tables, f: Format, mem: seq<byte>, e: nat, a: nat)
    requires EightByte(t) && Bit(e, 0)
    ensures var m := t.arch.maxPhys; WalkAgrees(t, f, mem, PT, e, a, FromPte(f, mem, Mask(e, m - 1, 12), a, m))
  {
    LevelBits();
    var base, next := TableStep(t, mem, PT, e, a, 8);
    if next.None? {
      OneMissing(mem, t.EntrySize(), Use(12, base, None));
    } else {
      assert [Use(12, base, next)] + [] == [Use(12, base, next)];
      PageAgrees(t, f, mem, Found(next.value, 12), base, next.value, a, 12, t.arch.maxPhys);
    }
  }

  /** What the manual makes of an entry that may map a page of `2^n` bytes or point to a table. */
  ghost function PageOr(f: Format, m: nat, n: nat, e: Option<nat>, a: nat, table: Option<nat>): Option<nat>
    requires 12 <= n <= m <= 52
  {
    if !Usable(f, m, n, e) then None
    else if MapsPage(e.value) then Some(Mask(e.value, m - 1, n) + Low(a, n))
    else table
  }

  /** A level whose entries may map pages, when the walk below it agrees. */
  lemma {:induction false} LargeLevelAgrees(t: Tables, f: Format, mem: seq<byte>, levels: seq<Level>, e: nat, a: nat,
                                            n: nat, m: nat, base: nat, next: Option<nat>, size: nat,
                                            entry: Option<nat>, table: Option<nat>)
    requires AllFit(t, levels) && levels != [] && levels[0].large && n == BitsLeft(levels[1..]) && 12 < n <= m <= 52
    requires t.arch.system.Plain? && t.arch.maxPhys == m && Bit(e, 0) && size == t.EntrySize() > 0
    requires base == TableBase(t, levels[0], e) && next == ReadEntry(t, mem, levels, e, a)
    requires entry == Entry(mem, base, Field(a, n, BitsLeft(levels)), size)
    requires next.Some? && MapsPage(next.value) && !Reserved(f, m, n, next.value) ==> Field(next.value, 13, n) == 0
    requires next.Some? && Bit(next.value, 0) && !MapsPage(next.value) ==>
               WalkAgrees(t, f, mem, levels[1..], next.value, a, table)
    ensures WalkAgrees(t, f, mem, levels, e, a, PageOr(f, m, n, entry, a, table))
  {
    SameEntry(t, mem, levels, e, a);
    WalkStep(t, mem, levels, e, a);
    if next.None? {
      OneMissing(mem, size, Use(n, base, None));
    } else if Bit(next.value, 7) {
      PageAgrees(t, f, mem, Found(ClearPat(next.value), n), base, next.value, a, n, m);
    } else {
      TableAgrees(t, f, mem, levels[1..], n, base, next.value, a, table);
    }
  }

  lemma {:induction false} PdeAgrees(t: Tables, f: Format, mem: seq<byte>, e: nat, a: nat)
    requires EightByte(t) && Bit(e, 0) && f != ThirtyTwoBit
    ensures var m := t.arch.maxPhys; WalkAgrees(t, f, mem, PD, e, a, FromPde(f, mem, Mask(e, m - 1, 12), a, m))
  {
    LevelBits();
    var m, base, next := t.arch.maxPhys, TableBase(t, PD[0], e), ReadEntry(t, mem, PD, e, a);
    SameEntry(t, mem, PD, e, a);
    var pde := Entry(mem, base, Field(a, 21, 30), 8);
    var table := if pde.Some? then FromPte(f, mem, Mask(pde.value, m - 1, 12), a, m) else None;
    if next.Some? && Bit(next.value, 0) { PteAgrees(t, f, mem, next.value, a); }
    LargeLevelAgrees(t, f, mem, PD, e, a, 21, m, base, next, 8, pde, table);
  }

  lemma {:induction false} PdpteAgrees(t: Tables, mem: seq<byte>, e: nat, a: nat)
    requires EightByte(t) && Bit(e, 0)
    ensures var m := t.arch.maxPhys;
            WalkAgrees(t, FourLevel, mem, PDPT, e, a, FromPdpte(mem, Mask(e, m - 1, 12), a, m))
  {
    LevelBits();
    var m, base, next := t.arch.maxPhys, TableBase(t, PDPT[0], e), ReadEntry(t, mem, PDPT, e, a);
    SameEntry(t, mem, PDPT, e, a);
    var pdpte := Entry(mem, base, Field(a, 30, 39), 8);
    var table := if pdpte.Some? then FromPde(FourLevel, mem, Mask(pdpte.value, m - 1, 12), a, m) else None;
    if next.Some? && Bit(next.value, 0) { PdeAgrees(t, FourLevel, mem, next.value, a); }
    LargeLevelAgrees(t, FourLevel, mem, PDPT, e, a, 30, m, base, next, 8, pdpte, table);
  }

  /** The initial entry is the low bits of `page_map_offset`, marked present; its table
      address keeps the bits of those. */
  lemma {:induction false} InitialEntryMask(root: nat, bits: nat, low: nat, m: nat)
    requires 1 <= low <= bits <= m
    ensures var e := Or(Mask(root, bits - 1, 0), 1);
            Bit(e, 0) && Mask(e, m - 1, low) == Mask(Low(root, bits), m - 1, low)
  {
    var x := Low(root, bits);
    PresentBit(x, low);
  }

  lemma {:induction false} PresentBit(x: nat, low: nat)
    requires low >= 1
    ensures Bit(Or(x, 1), 0) && Shr(Or(x, 1), low) == Shr(x, low)
  {
    var one, h := 1, Shr(x, 1);
    assert Pow2(one) == 2;
    Split(x, 1);
    OrSplit(h, x % 2, 1, 1);
    Join(h, 1, 1);
    Join(h, x % 2, 1);
    ShrShr(Or(x, 1), 1, low - 1);
    ShrShr(x, 1, low - 1);
  }

  /** A wider mask of a number cut to `bits` bits is the mask below `bits`. */
  lemma {:induction false} RootBits(root: nat, m: nat, bits: nat, low: nat)
    requires low <= bits <= m && bits > 0
    ensures Mask(Low(root, bits), m - 1, low) == Mask(root, bits - 1, low)
  {
    ShrLow(root, low, bits - low);
    Pow2Mono(bits - low, m - low);
    LowSmall(Low(Shr(root, low), bits - low), m - low);
  }

  const PML4 := [Level(9, false)] + PDPT
  const PAE_TOP := [Level(2, false)] + PD

  lemma {:induction false} TopLevels()
    ensures INTEL_32E.structure == PML4 && PML4[1..] == PDPT && BitsLeft(PML4) == 48
    ensures INTEL_PAE.structure == PAE_TOP && PAE_TOP[1..] == PD && BitsLeft(PAE_TOP) == 32
  {
    LevelBits();
  }

  /** The entries the translation of `a` uses. */
  function UsesOf(t: Tables, mem: seq<byte>, a: nat): (us: seq<Use>)
    ensures forall u :: u in us ==> u.bits >= 12
  {
    Uses(t, mem, t.arch.structure, t.InitialEntry(), a)
  }

  /** Where the manual maps `a` to `x`, the layer translates `a` to `x` exactly if no table is
      missing; where the layer translates `a`, the manual maps it exactly if no entry used sets
      a reserved bit. */
  ghost predicate Matches(t: Tables, f: Format, mem: seq<byte>, a: nat, manual: Option<nat>)
    requires t.arch.maxPhys <= 52
  {
    EntrySizes(t);
    Agrees(t, f, mem, Translate(t, mem, a), UsesOf(t, mem, a), manual)
  }

  lemma {:induction false} WalkDecides(t: Tables, f: Format, mem: seq<byte>, a: nat, manual: Option<nat>)
    requires t.arch.maxPhys <= 52 && t.EntrySize() > 0
    requires WalkAgrees(t, f, mem, t.arch.structure, t.InitialEntry(), a, manual)
    ensures Matches(t, f, mem, a, manual)
  {
    WalkOfPageBase(t, mem, a);
  }

  lemma {:induction false} Pml4Agrees(t: Tables, mem: seq<byte>, e: nat, cr3: nat, a: nat)
    requires EightByte(t) && Bit(e, 0) && Mask(e, t.arch.maxPhys - 1, 12) == Mask(cr3, t.arch.maxPhys - 1, 12)
    ensures WalkAgrees(t, FourLevel, mem, PML4, e, a, FourLevelMaps(mem, cr3, a, t.arch.maxPhys))
  {
    LevelBits();
    TopLevels();
    var base, next := TableStep(t, mem, PML4, e, a, 8);
    if next.None? {
      OneMissing(mem, t.EntrySize(), Use(39, base, None));
    } else {
      var pml4e, m := next.value, t.arch.maxPhys;
      if Bit(pml4e, 0) { PdpteAgrees(t, mem, pml4e, a); }
      TableAgrees(t, FourLevel, mem, PDPT, 39, base, pml4e, a, FromPdpte(mem, Mask(pml4e, m - 1, 12), a, m));
    }
  }

  lemma {:induction false} PaeTopAgrees(t: Tables, mem: seq<byte>, e: nat, cr3: nat, a: nat)
    requires EightByte(t) && Bit(e, 0) && Mask(e, t.arch.maxPhys - 1, 5) == Mask(cr3, 31, 5)
    ensures WalkAgrees(t, Pae, mem, PAE_TOP, e, a, PaeMaps(mem, cr3, a, t.arch.maxPhys))
  {
    LevelBits();
    TopLevels();
    var base, next := TableStep(t, mem, PAE_TOP, e, a, 8);
    if next.None? {
      OneMissing(mem, t.EntrySize(), Use(30, base, None));
    } else {
      var pdpte, m := next.value, t.arch.maxPhys;
      if Bit(pdpte, 0) { PdeAgrees(t, Pae, mem, pdpte, a); }
      TableAgrees(t, Pae, mem, PD, 30, base, pdpte, a, FromPde(Pae, mem, Mask(pdpte, m - 1, 12), a, m));
    }
  }

  /** 4-level paging. The layer cuts the root to the 48 bits of a virtual address. */
  lemma {:induction false} FourLevelAgrees(root: nat, mem: seq<byte>, a: nat)
    ensures Matches(Tables(INTEL_32E, root), FourLevel, mem, a, FourLevelMaps(mem, Low(root, 48), a, 52))
  {
    var t := Tables(INTEL_32E, root);
    EntrySizes(t);
    TopLevels();
    InitialEntryMask(root, 48, 12, 52);
    Pml4Agrees(t, mem, t.InitialEntry(), Low(root, 48), a);
    WalkDecides(t, FourLevel, mem, a, FourLevelMaps(mem, Low(root, 48), a, 52));
  }

  /** Cutting the root changes the table it names exactly if it sets one of bits 48 to 51. */
  lemma {:induction false} RootIsCut(root: nat)
    ensures Mask(Low(root, 48), 51, 12) == Mask(root, 51, 12) <==> Field(root, 48, 52) == 0
  {
    RootBits(root, 52, 48, 12);
    FieldParts(root, 12, 48, 52);
    ShlInjective(Field(root, 12, 48), Field(root, 12, 52), 12);
  }

  lemma {:induction false} ShlInjective(x: nat, y: nat, n: nat)
    ensures Shl(x, n) == Shl(y, n) <==> x == y
  {
    Join(x, 0, n);
    Join(y, 0, n);
  }

  /** With a root below 2^48, or any root that leaves bits 48 to 51 clear, the layer agrees with
      4-level paging on that root. */
  lemma {:induction false} FourLevelAgreesOnRoot(root: nat, mem: seq<byte>, a: nat)
    requires Field(root, 48, 52) == 0
    ensures Matches(Tables(INTEL_32E, root), FourLevel, mem, a, FourLevelMaps(mem, root, a, 52))
  {
    RootIsCut(root);
    FourLevelAgrees(root, mem, a);
  }

  /** The manual's table of page-directory pointers has 32 bytes, at any multiple of 32. The
      layer maps nothing at all unless the memory holds 4 KiB from there, not one entry repeated. */
  lemma {:induction false} PaeNeedsWholeTable(root: nat, mem: seq<byte>, a: nat)
    requires !TableThere(mem, Mask(root, 31, 5), 8)
    ensures Translate(Tables(INTEL_PAE, root), mem, a).Unmapped?
  {
    var t := Tables(INTEL_PAE, root);
    EntrySizes(t);
    TopLevels();
    InitialEntryMask(root, 32, 5, 40);
    RootBits(root, 40, 32, 5);
    NothingWithoutTop(t, mem, a, PAE_TOP);
  }

  /** Without its top table a layer translates nothing. */
  lemma {:induction false} NothingWithoutTop(t: Tables, mem: seq<byte>, a: nat, levels: seq<Level>)
    requires levels == t.arch.structure != []
    requires t.EntrySize() > 0 && !TableThere(mem, TableBase(t, levels[0], t.InitialEntry()), t.EntrySize())
    ensures Translate(t, mem, a).Unmapped?
  {
    WalkOfPageBase(t, mem, a);
    SameEntry(t, mem, levels, t.InitialEntry(), a);
    WalkStep(t, mem, levels, t.InitialEntry(), a);
  }

  /** PAE paging. */
  lemma {:induction false} PaeAgrees(root: nat, mem: seq<byte>, a: nat)
    ensures Matches(Tables(INTEL_PAE, root), Pae, mem, a, PaeMaps(mem, root, a, 40))
  {
    var t := Tables(INTEL_PAE, root);
    EntrySizes(t);
    TopLevels();
    InitialEntryMask(root, 32, 5, 40);
    RootBits(root, 40, 32, 5);
    PaeTopAgrees(t, mem, t.InitialEntry(), root, a);
    WalkDecides(t, Pae, mem, a, PaeMaps(mem, root, a, 40));
  }

  const SHORT_PT := [Level(10, false)]
  const SHORT_PD := [Level(10, true)] + SHORT_PT

  lemma ShortLevels()
    ensures INTEL.structure == SHORT_PD && SHORT_PD[1..] == SHORT_PT && SHORT_PT[1..] == []
    ensures BitsLeft(SHORT_PD) == 32 && BitsLeft(SHORT_PT) == 22
  {
  }

  lemma {:induction false} ShortPteAgrees(t: Tables, mem: seq<byte>, e: nat, a: nat)
    requires t.arch == INTEL && t.EntrySize() == 4 && Bit(e, 0)
    ensures WalkAgrees(t, ThirtyTwoBit, mem, SHORT_PT, e, a, FromShortPte(mem, Mask(e, 31, 12), a))
  {
    ShortLevels();
    var base, pte := TableStep(t, mem, SHORT_PT, e, a, 4);
    if pte.None? {
      OneMissing(mem, t.EntrySize(), Use(12, base, None));
    } else {
      assert [Use(12, base, pte)] + [] == [Use(12, base, pte)];
      PageAgrees(t, ThirtyTwoBit, mem, Found(pte.value, 12), base, pte.value, a, 12, 32);
    }
  }

  lemma {:induction false} ShortPdeAgrees(t: Tables, mem: seq<byte>, e: nat, cr3: nat, a: nat)
    requires t.arch == INTEL && t.EntrySize() == 4 && Bit(e, 0) && Mask(e, 31, 12) == Mask(cr3, 31, 12)
    ensures WalkAgrees(t, ThirtyTwoBit, mem, SHORT_PD, e, a, ThirtyTwoBitMaps(mem, cr3, a))
  {
    ShortLevels();
    var base, next := TableBase(t, SHORT_PD[0], e), ReadEntry(t, mem, SHORT_PD, e, a);
    SameEntry(t, mem, SHORT_PD, e, a);
    var pde := Entry(mem, base, Field(a, 22, 32), 4);
    var table := if pde.Some? then FromShortPte(mem, Mask(pde.value, 31, 12), a) else None;
    if next.Some? && Bit(next.value, 0) { ShortPteAgrees(t, mem, next.value, a); }
    LargeLevelAgrees(t, ThirtyTwoBit, mem, SHORT_PD, e, a, 22, 32, base, next, 4, pde, table);
  }

  /** 32-bit paging, without PSE-36 frames. */
  lemma {:induction false} ThirtyTwoBitAgrees(root: nat, mem: seq<byte>, a: nat)
    ensures Matches(Tables(INTEL, root), ThirtyTwoBit, mem, a, ThirtyTwoBitMaps(mem, root, a))
  {
    var t := Tables(INTEL, root);
    EntrySizes(t);
    ShortLevels();
    InitialEntryMask(root, 32, 12, 32);
    RootBits(root, 32, 32, 12);
    ShortPdeAgrees(t, mem, t.InitialEntry(), root, a);
    WalkDecides(t, ThirtyTwoBit, mem, a, ThirtyTwoBitMaps(mem, root, a));
  }
}
