/** The rules of the operating systems for final entries: which ones are valid, and where the
    frame of a Linux entry is that the kernel stores inverted. */
module SystemEntries {
  import opened Bits
  import opened PageTables

  /** The masks the source tests: the present bit; for Windows also the transition bit without
      the prototype bit; for Linux the present or the PROT_NONE bit. */
  lemma {:induction false} ValidityByMasks(t: Tables, entry: nat)
    ensures t.arch.system.Plain? ==> (t.PageIsValid(entry) <==> And(entry, 1) != 0)
    ensures t.arch.system.Windows? ==>
              (t.PageIsValid(entry) <==> And(entry, 1) != 0 || (And(entry, 0x800) != 0 && And(entry, 0x400) == 0))
    ensures t.arch.system.Linux? ==> (t.PageIsValid(entry) <==> And(entry, 0x101) != 0)
  {
    var zero, ten, eleven := 0, 10, 11;
    assert Pow2(zero) == 1;
    Pow2Values();
    AndBit(entry, zero);
    AndBit(entry, ten);
    AndBit(entry, eleven);
    PresentOrProtNone(entry);
  }

  lemma {:induction false} PresentOrProtNone(x: nat)
    ensures And(x, 0x101) != 0 <==> Bit(x, 0) || Bit(x, 8)
  {
    var seven, mask := 7, 0x101;
    AndStep(x, mask);
    assert mask % 2 == 1 && mask / 2 == 128;
    Pow2Values();
    AndBit(x / 2, seven);
    BitStep(x, 8);
  }

  /** The width of a Linux frame mask. */
  function FrameTop(t: Tables): (n: nat)
    ensures n >= 13
  {
    Min(t.arch.registerBits, t.arch.maxPhys)
  }

  /** A present entry holds its frame; in one that is not present, but not clear, every bit of
      the frame is inverted. */
  lemma {:induction false} LinuxFrame(t: Tables, entry: nat)
    requires t.arch.system.Linux?
    ensures var n := FrameTop(t);
            t.PtePfn(entry) == if entry != 0 && !Bit(entry, 0) then Pow2(n - 12) - 1 - Field(entry, 12, n)
                               else Field(entry, 12, n)
  {
    var n := FrameTop(t);
    var pfn := Xor(entry, if entry != 0 && !Bit(entry, 0) then Pow2(t.arch.registerBits) - 1 else 0);
    MaskIsXorMask(pfn, n - 1, 12);
    MaskIsField(pfn, n - 1, 12);
    if entry != 0 && !Bit(entry, 0) {
      XorOnesField(entry, t.arch.registerBits, 12, n);
    }
  }

  /** What the kernel stores inverted reads back: entries with complementary frame bits, one of
      them present and the other not, name the same page. */
  lemma {:induction false} InvertedReadsBack(t: Tables, entry: nat, inverted: nat)
    requires t.arch.system.Linux? && Bit(entry, 0) && !Bit(inverted, 0) && inverted != 0
    requires Field(inverted, 12, FrameTop(t)) == Pow2(FrameTop(t) - 12) - 1 - Field(entry, 12, FrameTop(t))
    ensures t.PtePfn(inverted) == t.PtePfn(entry)
  {
    LinuxFrame(t, entry);
    LinuxFrame(t, inverted);
  }

  lemma XorStep(x: nat, y: nat)
    ensures Xor(x, y) == (if x % 2 != y % 2 then 1 else 0) + 2 * Xor(x / 2, y / 2)
  {
  }

  lemma {:induction false} XorOnesStep(x: nat, m: nat)
    requires m > 0
    ensures var y := Xor(x, Pow2(m) - 1);
            y % 2 == 1 - x % 2 && y / 2 == Xor(x / 2, Pow2(m - 1) - 1)
  {
    var ones := Pow2(m) - 1;
    assert ones == 2 * (Pow2(m - 1) - 1) + 1;
    XorStep(x, ones);
  }

  /** XOR with ones inverts every bit they reach. */
  lemma {:induction false} XorOnesField(x: nat, m: nat, low: nat, high: nat)
    requires low <= high <= m
    ensures Field(Xor(x, Pow2(m) - 1), low, high) == Pow2(high - low) - 1 - Field(x, low, high)
    decreases low
  {
    if low == 0 {
      XorOnesLow(x, m, high);
    } else {
      XorOnesStep(x, m);
      XorOnesField(x / 2, m - 1, low - 1, high - 1);
    }
  }

  lemma {:induction false} XorOnesLow(x: nat, m: nat, n: nat)
    requires n <= m
    ensures Low(Xor(x, Pow2(m) - 1), n) == Pow2(n) - 1 - Low(x, n)
    decreases n
  {
    if n > 0 {
      XorOnesStep(x, m);
      XorOnesLow(x / 2, m - 1, n - 1);
    }
  }
}
