/** PAE tables that the manual maps and the layer does not: a table of page-directory
    pointers less than a page before the end of the memory. */
module PaeExample {
  import opened Bits
  import opened IntelManual
  import opened Memory
  import opened PageTables

  /** Two pages of memory: at 0 a directory whose first entry maps two megabytes from 0, at
      0x1020 a table of page-directory pointers whose first entry points to it. */
  const MEMORY: seq<byte> := [0x81] + Zeros(0x101f) + [0x01] + Zeros(0xfdf)

  lemma {:induction false} OneByteEntry(s: seq<byte>, n: nat)
    requires |s| == n > 0 && forall k :: 0 < k < n ==> s[k] == 0
    ensures LittleEndian(s) == s[0]
  {
    ZeroEntry(s[1..]);
  }

  lemma {:induction false} ZeroEntry(s: seq<byte>)
    requires forall k :: 0 <= k < |s| ==> s[k] == 0
    ensures LittleEndian(s) == 0
  {
    if s != [] { ZeroEntry(s[1..]); }
  }

  lemma {:induction false} TheEntries(root: nat)
    requires root == 0x1020
    ensures Entry(MEMORY, root, 0, 8) == Some(1) && Entry(MEMORY, 0, 0, 8) == Some(0x81)
  {
    OneByteEntry(MEMORY[root..root + 8], 8);
    OneByteEntry(MEMORY[0..8], 8);
  }

  /** The high fields of a small entry are zero. */
  lemma {:induction false} SmallField(e: nat, low: nat, high: nat)
    requires e < Pow2(low) && low <= high
    ensures Field(e, low, high) == 0 && Shl(Field(e, low, high), low) == 0
  {
    LowSmall(e, low);
    LowSmall(0, high - low);
    ShlIsMul(0, low);
  }

  lemma {:induction false} PointerIsUsable(e: nat, m: nat)
    requires e < Pow2(1) && Bit(e, 0) && 12 <= m <= 52
    ensures Usable(Pae, m, 30, Some(e)) && Mask(e, m - 1, 12) == 0
  {
    BelowPowers(e, 1, 5, 12, m);
    SmallField(e, 1, 3);
    SmallField(e, 5, 9);
    SmallField(e, 12, m);
    SmallField(e, m, 64);
  }

  lemma {:induction false} BelowPowers(e: nat, i: nat, j: nat, k: nat, l: nat)
    requires e < Pow2(i) && i <= j <= k <= l
    ensures e < Pow2(j) && e < Pow2(k) && e < Pow2(l)
  {
    Pow2Mono(i, j);
    Pow2Mono(j, k);
    Pow2Mono(k, l);
  }

  lemma {:induction false} PageIsUsable(e: nat, m: nat)
    requires e < Pow2(8) && Bit(e, 0) && 21 <= m <= 52
    ensures Usable(Pae, m, 21, Some(e)) && Mask(e, m - 1, 21) == 0
  {
    BelowPowers(e, 8, 13, 21, m);
    SmallField(e, 13, 21);
    SmallField(e, 21, m);
    SmallField(e, m, 63);
  }

  lemma {:induction false} TheBits()
    ensures Bit(1, 0) && 1 < Pow2(1) && Bit(0x81, 0) && Bit(0x81, 7) && 0x81 < Pow2(8)
  {
    Pow2Values();
    ShrIsDiv(0x81, 7);
  }

  lemma {:induction false} LowAddress(a: nat, n: nat)
    requires a < Pow2(n) && n <= 30
    ensures Field(a, n, 30) == 0 && Field(a, 30, 32) == 0 && Low(a, n) == a
  {
    Pow2Mono(n, 30);
    SmallField(a, n, 30);
    SmallField(a, 30, 32);
    LowSmall(a, n);
  }

  lemma {:induction false} DirectoryMaps(mem: seq<byte>, table: nat, a: nat, m: nat, e: nat)
    requires Entry(mem, table, 0, 8) == Some(e) && e < Pow2(8) && Bit(e, 0) && Bit(e, 7)
    requires a < Pow2(21) && 30 < m <= 52
    ensures FromPde(Pae, mem, table, a, m) == Some(a)
  {
    LowAddress(a, 21);
    PageIsUsable(e, m);
  }

  lemma {:induction false} PointersMap(mem: seq<byte>, root: nat, a: nat, m: nat, e: nat)
    requires Entry(mem, root, 0, 8) == Some(e) && e < Pow2(1) && Bit(e, 0) && Mask(root, 31, 5) == root
    requires a < Pow2(21) && 30 < m <= 52 && FromPde(Pae, mem, 0, a, m) == Some(a)
    ensures PaeMaps(mem, root, a, m) == Some(a)
  {
    LowAddress(a, 21);
    PointerIsUsable(e, m);
  }

  /** The manual maps every address of the first two megabytes to itself; the layer maps none. */
  lemma {:induction false} PointerTableIsMissed(mem: seq<byte>, root: nat, a: nat, m: nat)
    requires mem == MEMORY && root == 0x1020 && a < 0x20_0000 && m == 40
    ensures PaeMaps(mem, root, a, m) == Some(a) && Translate(Tables(INTEL_PAE, root), mem, a).Unmapped?
  {
    assert Pow2(21) == 0x20_0000 by { Pow2Values(); }
    TheEntries(root);
    TheBits();
    TheRoot(root, 32);
    DirectoryMaps(mem, 0, a, m, 0x81);
    PointersMap(mem, root, a, m, 1);
    PaeNeedsWholeTable(root, mem, a);
  }

  lemma {:induction false} TheRoot(root: nat, n: nat)
    requires root == 0x1020 && n == 32
    ensures Mask(root, n - 1, 5) == root
  {
    assert Pow2(5) == 32 && Pow2(n) == 0x1_0000_0000 by { Pow2Values(); }
    ShrLow(root, 5, n - 5);
    LowSmall(root, n);
    Split(root, 5);
    ShrIsDiv(root, 5);
  }
}
