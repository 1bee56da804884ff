/** Bit arithmetic on natural numbers: shifts, bit fields, the bitwise operators
    the source applies to addresses and table entries, and the field extraction
    `_mask`. Shifts and fields are defined bit by bit; `ShrIsDiv` and `LowIsMod`
    give their quotient-and-remainder forms. */
module Bits {

  type byte = x: int | 0 <= x < 256

  function Min(x: int, y: int): int {
    if x <= y then x else y
  }

  function Max(x: int, y: int): int {
    if x <= y then y else x
  }

  /** `n` zero bytes. */
  function Zeros(n: nat): (s: seq<byte>)
    ensures |s| == n && forall k :: 0 <= k < n ==> s[k] == 0
  {
    seq<byte>(n, k => 0)
  }

  function Pow2(n: nat): (p: nat)
    ensures p >= 1
  {
    if n == 0 then 1 else 2 * Pow2(n - 1)
  }

  /** `x >> n`. */
  function Shr(x: nat, n: nat): nat
    decreases n, x
  {
    if n == 0 then x else Shr(x / 2, n - 1)
  }

  /** `x << n`. */
  function Shl(x: nat, n: nat): nat
    decreases n, x
  {
    if n == 0 then x else 2 * Shl(x, n - 1)
  }

  /** The low `n` bits of `x`. */
  function Low(x: nat, n: nat): (r: nat)
    ensures r < Pow2(n)
    decreases n, x
  {
    if n == 0 then 0 else x % 2 + 2 * Low(x / 2, n - 1)
  }

  /** Bits `low` to `high - 1` of `value`, moved down to bit 0. */
  function Field(value: nat, low: nat, high: nat): (f: nat)
    requires low <= high
    ensures f < Pow2(high - low)
  {
    Low(Shr(value, low), high - low)
  }

  /** Bits `low` to `high` (inclusive) of `value`, left in place. */
  function Mask(value: nat, high: nat, low: nat): nat
    requires low <= high + 1
  {
    Shl(Field(value, low, high + 1), low)
  }

  /** Whether bit `n` of `value` is set. */
  predicate Bit(value: nat, n: nat) {
    Shr(value, n) % 2 == 1
  }

  function And(x: nat, y: nat): (r: nat)
    ensures r <= x && r <= y
  {
    if x == 0 || y == 0 then 0 else (if x % 2 == 1 && y % 2 == 1 then 1 else 0) + 2 * And(x / 2, y / 2)
  }

  function Or(x: nat, y: nat): nat
    decreases x + y
  {
    if x == 0 then y
    else if y == 0 then x
    else (if x % 2 == 1 || y % 2 == 1 then 1 else 0) + 2 * Or(x / 2, y / 2)
  }

  function Xor(x: nat, y: nat): nat
    decreases x + y
  {
    if x == 0 then y
    else if y == 0 then x
    else (if x % 2 != y % 2 then 1 else 0) + 2 * Xor(x / 2, y / 2)
  }

  /** The mask the source builds for bits `low` to `high`: the XOR of two runs of ones. */
  function XorMask(high: nat, low: nat): nat {
    Xor(Pow2(high + 1) - 1, Pow2(low) - 1)
  }

  // ---- powers of two ----

  lemma {:induction false} Pow2Add(m: nat, n: nat)
    ensures Pow2(m + n) == Pow2(m) * Pow2(n)
  {
    if m > 0 {
      Pow2Add(m - 1, n);
      assert (2 * Pow2(m - 1)) * Pow2(n) == 2 * (Pow2(m - 1) * Pow2(n));
    }
  }

  lemma {:induction false} Pow2Mono(m: nat, n: nat)
    requires m <= n
    ensures Pow2(m) <= Pow2(n)
    decreases n
  {
    if m < n { Pow2Mono(m, n - 1); }
  }

  lemma {:induction false} Pow2Values()
    ensures Pow2(5) == 32 && Pow2(7) == 128 && Pow2(8) == 0x100
    ensures Pow2(9) == 0x200 && Pow2(10) == 0x400 && Pow2(11) == 0x800 && Pow2(12) == 0x1000
    ensures Pow2(20) == 0x10_0000 && Pow2(21) == 0x20_0000 && Pow2(22) == 0x40_0000
    ensures Pow2(30) == 0x4000_0000 && Pow2(32) == 0x1_0000_0000
    ensures Pow2(39) == 0x80_0000_0000 && Pow2(40) == 0x100_0000_0000
    ensures Pow2(45) == 0x2000_0000_0000 && Pow2(48) == 0x1_0000_0000_0000
    ensures Pow2(52) == 0x10_0000_0000_0000
  {
    var ten, twenty, forty := 10, 20, 40;
    assert Pow2(ten) == 0x400;
    Pow2Add(ten, 10);
    Pow2Add(twenty, 10);
    Pow2Add(twenty, 20);
    Pow2Add(forty, 5);
    Pow2Add(forty, 8);
    Pow2Add(forty, 12);
  }

  /** The least `n` with `x <= 2^n`. */
  function CeilLog2(x: nat): (n: nat)
    requires x > 0
    ensures x <= Pow2(n) && (n > 0 ==> Pow2(n - 1) < x)
  {
    if x == 1 then 0 else 1 + CeilLog2((x + 1) / 2)
  }

  lemma {:induction false} CeilLog2OfOnes(n: nat)
    requires n >= 2
    ensures CeilLog2(Pow2(n) - 1) == n
  {
    var m := CeilLog2(Pow2(n) - 1);
    Pow2Mono(1, n - 1);
    if m < n {
      Pow2Mono(m, n - 1);
    } else if m > n {
      Pow2Mono(n, m - 1);
    }
  }

  // ---- shifts and fields ----

  lemma {:induction false} ShlIsMul(x: nat, n: nat)
    ensures Shl(x, n) == x * Pow2(n)
  {
    if n > 0 {
      ShlIsMul(x, n - 1);
      assert x * (2 * Pow2(n - 1)) == 2 * (x * Pow2(n - 1));
    }
  }

  /** A number is its high part and its low part. */
  lemma {:induction false} Split(x: nat, n: nat)
    ensures x == Shl(Shr(x, n), n) + Low(x, n)
    decreases n
  {
    if n > 0 { Split(x / 2, n - 1); }
  }

  /** The high and low parts of a number are unique. */
  lemma {:induction false} Join(h: nat, r: nat, n: nat)
    requires r < Pow2(n)
    ensures Shr(Shl(h, n) + r, n) == h && Low(Shl(h, n) + r, n) == r
    decreases n
  {
    if n > 0 {
      var x := Shl(h, n) + r;
      assert x == 2 * (Shl(h, n - 1) + r / 2) + r % 2;
      Join(h, r / 2, n - 1);
    }
  }

  lemma {:induction false} ShrIsDiv(x: nat, n: nat)
    ensures Shr(x, n) == x / Pow2(n)
    ensures Low(x, n) == x % Pow2(n)
  {
    Split(x, n);
    ShlIsMul(Shr(x, n), n);
    DivModUnique(x, Pow2(n), Shr(x, n), Low(x, n));
  }

  lemma {:induction false} ShrShr(x: nat, m: nat, n: nat)
    ensures Shr(Shr(x, m), n) == Shr(x, m + n)
    decreases m
  {
    if m > 0 { ShrShr(x / 2, m - 1, n); }
  }

  lemma {:induction false} ShlShl(x: nat, m: nat, n: nat)
    ensures Shl(Shl(x, m), n) == Shl(x, m + n)
    decreases n
  {
    if n > 0 { ShlShl(x, m, n - 1); }
  }

  lemma {:induction false} LowLow(x: nat, m: nat, n: nat)
    requires n <= m
    ensures Low(Low(x, m), n) == Low(x, n)
    decreases n
  {
    if n > 0 { LowLow(x / 2, m - 1, n - 1); }
  }

  lemma {:induction false} ShrLow(x: nat, m: nat, n: nat)
    ensures Shr(Low(x, m + n), m) == Low(Shr(x, m), n)
    decreases m
  {
    if m == 0 {
    } else {
      ShrLow(x / 2, m - 1, n);
    }
  }

  lemma {:induction false} LowSmall(x: nat, n: nat)
    requires x < Pow2(n)
    ensures Low(x, n) == x && Shr(x, n) == 0
    decreases n
  {
    if n > 0 { LowSmall(x / 2, n - 1); }
  }

  /** A field inside a wider field. */
  lemma {:induction false} FieldOfField(x: nat, low: nat, high: nat, l: nat, h: nat)
    requires low <= l <= h <= high
    ensures Field(x, l, h) == Field(Field(x, low, high), l - low, h - low)
  {
    ShrShr(x, low, l - low);
    ShrLow(Shr(x, low), l - low, high - l);
    LowLow(Shr(x, l), high - l, h - l);
  }

  /** Clearing low bits leaves the fields above them alone. */
  lemma {:induction false} FieldOfFloor(x: nat, n: nat, low: nat, high: nat)
    requires n <= low <= high
    ensures Field(Shl(Shr(x, n), n), low, high) == Field(x, low, high)
  {
    ShrOfFloor(x, n, low - n);
    assert Shr(Shl(Shr(x, n), n), low) == Shr(x, low);
  }

  lemma {:induction false} ShrOfFloor(x: nat, n: nat, k: nat)
    ensures Shr(Shl(Shr(x, n), n), n + k) == Shr(x, n + k)
  {
    var y := Shr(x, n);
    Join(y, 0, n);
    ShrShr(x, n, k);
    ShrShr(Shl(y, n), n, k);
  }

  /** Dropping high bits leaves the fields below them alone. */
  lemma {:induction false} FieldOfLow(x: nat, n: nat, low: nat, high: nat)
    requires low <= high <= n
    ensures Field(Low(x, n), low, high) == Field(x, low, high)
  {
    ShrLow(x, low, n - low);
    LowLow(Shr(x, low), n - low, high - low);
  }

  /** The high part of a mask is a field. */
  lemma {:induction false} ShrMask(x: nat, high: nat, low: nat, n: nat)
    requires low <= n <= high + 1
    ensures Shr(Mask(x, high, low), n) == Field(x, n, high + 1)
  {
    var f := Field(x, low, high + 1);
    Join(f, 0, low);
    ShrShr(Shl(f, low), low, n - low);
    ShrLow(Shr(x, low), n - low, high + 1 - n);
    ShrShr(x, low, n - low);
  }

  /** Clearing the lowest set bit changes no higher bit. */
  lemma {:induction false} ShrOddPred(h: nat, k: nat)
    requires h % 2 == 1 && k >= 1
    ensures Shr(h - 1, k) == Shr(h, k)
  {
    assert (h - 1) / 2 == h / 2;
  }

  // ---- products, quotients and remainders ----

  lemma {:induction false} MulAtLeast(k: int, d: int)
    requires k >= 1 && d >= 0
    ensures k * d >= d
  {
    assert k * d == (k - 1) * d + d;
  }

  lemma MulNonNegative(k: int, d: int)
    requires k >= 0 && d >= 0
    ensures k * d >= 0
  {
  }

  lemma {:induction false} SlotFits(i: nat, n: nat, size: nat)
    requires i < n
    ensures i * size + size <= n * size
  {
    MulNonNegative(n - 1 - i, size);
    assert n * size == i * size + size + (n - 1 - i) * size;
  }

  /** `q` and `r` are the quotient and remainder of `x` by `d`. */
  lemma {:induction false} DivModUnique(x: int, d: int, q: int, r: int)
    requires d > 0 && x == q * d + r && 0 <= r < d
    ensures x / d == q && x % d == r
  {
    var q', r' := x / d, x % d;
    assert x == q' * d + r';
    assert (q - q') * d == q * d - q' * d == r' - r;
    assert (q' - q) * d == -((q - q') * d);
    if q' < q {
      MulAtLeast(q - q', d);
    } else if q < q' {
      MulAtLeast(q' - q, d);
    }
  }

  // ---- the bitwise operators ----

  lemma AndStep(x: nat, y: nat)
    ensures And(x, y) == (if x % 2 == 1 && y % 2 == 1 then 1 else 0) + 2 * And(x / 2, y / 2)
  {
  }

  lemma OrStep(x: nat, y: nat)
    ensures Or(x, y) == (if x % 2 == 1 || y % 2 == 1 then 1 else 0) + 2 * Or(x / 2, y / 2)
  {
  }

  lemma {:induction false} AndLowMask(x: nat, n: nat)
    ensures And(x, Pow2(n) - 1) == Low(x, n)
    decreases n
  {
    if n > 0 {
      var ones := Pow2(n) - 1;
      assert ones % 2 == 1 && ones / 2 == Pow2(n - 1) - 1;
      AndStep(x, ones);
      AndLowMask(x / 2, n - 1);
    }
  }

  /** A number with its low bits clear shares no bit with a smaller mask. */
  lemma {:induction false} AndAligned(h: nat, m: nat, n: nat)
    requires m < Pow2(n)
    ensures And(Shl(h, n), m) == 0
    decreases n
  {
    if n > 0 {
      AndStep(Shl(h, n), m);
      AndAligned(h, m / 2, n - 1);
    }
  }

  /** The XOR-of-two-masks form of `_mask` selects the same bits. */
  lemma {:induction false} MaskIsXorMask(value: nat, high: nat, low: nat)
    requires low <= high + 1
    ensures And(value, XorMask(high, low)) == Mask(value, high, low)
  {
    XorOfRuns(high + 1, low);
    RunOfOnes(high + 1, low);
    AndField(value, high + 1 - low, low);
  }

  lemma {:induction false} AndField(x: nat, size: nat, n: nat)
    ensures And(x, Shl(Pow2(size) - 1, n)) == Shl(Low(Shr(x, n), size), n)
  {
    AndShl(x, Pow2(size) - 1, n);
    AndLowMask(Shr(x, n), size);
  }

  lemma {:induction false} AndShl(x: nat, y: nat, n: nat)
    ensures And(x, Shl(y, n)) == Shl(And(Shr(x, n), y), n)
    decreases n
  {
    if n > 0 {
      AndEven(x, Shl(y, n - 1));
      AndShl(x / 2, y, n - 1);
    }
  }

  lemma {:induction false} XorOfOnes(p: nat, q: nat, d: nat)
    requires p >= 1 && q >= 1 && Xor(p - 1, q - 1) == d
    ensures Xor(2 * p - 1, 2 * q - 1) == 2 * d
  {
    var x, y := 2 * p - 1, 2 * q - 1;
    assert x % 2 == 1 && x / 2 == p - 1;
    assert y % 2 == 1 && y / 2 == q - 1;
  }

  /** A mask is a run of ones: its value is a difference of powers. */
  lemma {:induction false} XorOfRuns(m: nat, n: nat)
    requires n <= m
    ensures Xor(Pow2(m) - 1, Pow2(n) - 1) == Pow2(m) - Pow2(n)
  {
    if n > 0 {
      XorOfRuns(m - 1, n - 1);
      XorOfOnes(Pow2(m - 1), Pow2(n - 1), Pow2(m - 1) - Pow2(n - 1));
    }
  }

  lemma {:induction false} RunOfOnes(m: nat, n: nat)
    requires n <= m
    ensures Shl(Pow2(m - n) - 1, n) == Pow2(m) - Pow2(n)
  {
    Pow2Add(m - n, n);
    ShlIsMul(Pow2(m - n) - 1, n);
  }

  lemma {:induction false} AndEven(x: nat, m: nat)
    ensures And(x, 2 * m) == 2 * And(x / 2, m)
  {
    var y := 2 * m;
    assert y % 2 == 0 && y / 2 == m;
  }

  lemma {:induction false} AndBit(x: nat, n: nat)
    ensures And(x, Pow2(n)) == 0 <==> !Bit(x, n)
    decreases n
  {
    if n == 0 {
      AndStep(x, 1);
    } else {
      AndEven(x, Pow2(n - 1));
      AndBit(x / 2, n - 1);
    }
  }

  lemma {:induction false} BitOfOnes(n: nat, j: nat)
    ensures Bit(Pow2(n) - 1, j) <==> j < n
    ensures !Bit(0, j)
    decreases j
  {
    BitOfZero(j);
    if n > 0 {
      var ones := Pow2(n) - 1;
      assert ones == 2 * (Pow2(n - 1) - 1) + 1;
      if j > 0 {
        BitStep(ones, j);
        BitOfOnes(n - 1, j - 1);
      }
    }
  }

  lemma {:induction false} BitOfZero(j: nat)
    ensures !Bit(0, j)
  {
    if j > 0 {
      BitStep(0, j);
      BitOfZero(j - 1);
    }
  }

  lemma {:induction false} BitStep(x: nat, j: nat)
    requires j > 0
    ensures Bit(x, j) == Bit(x / 2, j - 1)
  {
    assert Shr(x, j) == Shr(x / 2, j - 1);
  }

  /** The operators work bit by bit. */
  lemma {:induction false} Bitwise(x: nat, y: nat, n: nat)
    ensures Bit(And(x, y), n) <==> Bit(x, n) && Bit(y, n)
    ensures Bit(Or(x, y), n) <==> Bit(x, n) || Bit(y, n)
    ensures Bit(Xor(x, y), n) <==> Bit(x, n) != Bit(y, n)
    decreases n
  {
    if n > 0 {
      BitwiseStep(x, y);
      Bitwise(x / 2, y / 2, n - 1);
      BitStep(x, n);
      BitStep(y, n);
      BitStep(And(x, y), n);
      BitStep(Or(x, y), n);
      BitStep(Xor(x, y), n);
    } else {
      BitwiseStep(x, y);
    }
  }

  lemma {:induction false} BitwiseStep(x: nat, y: nat)
    ensures And(x, y) / 2 == And(x / 2, y / 2) && (And(x, y) % 2 == 1 <==> x % 2 == 1 && y % 2 == 1)
    ensures Or(x, y) / 2 == Or(x / 2, y / 2) && (Or(x, y) % 2 == 1 <==> x % 2 == 1 || y % 2 == 1)
    ensures Xor(x, y) / 2 == Xor(x / 2, y / 2) && (Xor(x, y) % 2 == 1 <==> x % 2 != y % 2)
  {
    AndStep(x, y);
    OrStep(x, y);
    assert Xor(x, y) == (if x % 2 != y % 2 then 1 else 0) + 2 * Xor(x / 2, y / 2);
  }

  lemma {:induction false} OrSelf(x: nat)
    ensures Or(x, x) == x
  {
    if x > 0 { OrSelf(x / 2); }
  }

  /** OR with a number below `2^n` acts on the low `n` bits only. */
  lemma {:induction false} OrSplit(h: nat, f: nat, o: nat, n: nat)
    requires f < Pow2(n) && o < Pow2(n)
    ensures Or(Shl(h, n) + f, o) == Shl(h, n) + Or(f, o)
    decreases n
  {
    if n > 0 {
      var x := Shl(h, n) + f;
      assert x == 2 * (Shl(h, n - 1) + f / 2) + f % 2;
      OrStep(x, o);
      OrStep(f, o);
      OrSplit(h, f / 2, o / 2, n - 1);
    }
  }
}
