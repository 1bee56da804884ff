/** Address translation by pages, apart from how the page of an address is found:
    what makes a translation paged, and when it is linear inside a page. */
module PagedSpace {
  import opened Bits

  /** The physical place of an address, or the fault its translation raises. A page
      spans `2^bits` addresses; a fault leaves the low `bits` address bits unresolved. */
  datatype Translation =
    | Page(frame: nat, bits: nat, address: nat)
    | Unmapped(entry: nat, bits: nat)

  /** Two addresses of one region: the same fault, or the same frame and size. */
  predicate SameOutcome(r: Translation, s: Translation) {
    && s.bits == r.bits
    && (r.Unmapped? ==> s == r)
    && (r.Page? ==> s.Page? && s.frame == r.frame)
  }

  /** A page's address is its frame with the in-page offset ORed in. */
  predicate PageShaped(r: Translation, a: nat) {
    r.Page? ==> r.address == Or(r.frame, Low(a, r.bits)) && Low(r.frame, 12) == 0
  }

  /** `b` lies in the region of `a` only if it translates together with `a`. */
  predicate Agree(tr: nat -> Translation, a: nat, b: nat) {
    Shr(a, tr(a).bits) == Shr(b, tr(a).bits) ==> SameOutcome(tr(a), tr(b))
  }

  predicate Shaped(tr: nat -> Translation, a: nat) {
    tr(a).bits >= 12 && PageShaped(tr(a), a)
  }

  ghost predicate Paged(tr: nat -> Translation) {
    && (forall a: nat, b: nat :: Agree(tr, a, b))
    && (forall a: nat :: Shaped(tr, a))
  }

  /** The first address of the `2^n`-byte region that holds `a`. */
  function RegionStart(a: nat, n: nat): (s: nat)
    ensures s <= a < s + Pow2(n) && a == s + Low(a, n)
  {
    Split(a, n);
    Shl(Shr(a, n), n)
  }

  lemma {:induction false} InRegion(a: nat, b: nat, n: nat)
    requires RegionStart(a, n) <= b < RegionStart(a, n) + Pow2(n)
    ensures Shr(b, n) == Shr(a, n)
    ensures RegionStart(b, n) == RegionStart(a, n)
    ensures Low(b, n) == b - RegionStart(a, n)
  {
    Join(Shr(a, n), b - RegionStart(a, n), n);
  }

  /** Whether the frame has no bits below the page size. */
  predicate FrameAligned(r: Translation) {
    r.Page? ==> Low(r.frame, r.bits) == 0
  }

  /** Translation moves through the page of `a` byte by byte. */
  ghost predicate LinearInPage(tr: nat -> Translation, a: nat)
    requires tr(a).Page?
  {
    var start := RegionStart(a, tr(a).bits);
    forall b: nat {:trigger tr(b)} :: start <= b < start + Pow2(tr(a).bits) ==>
      tr(start).Page? && tr(b).Page? && tr(b).address == tr(start).address + (b - start)
  }

  lemma {:induction false} AddressInPage(tr: nat -> Translation, a: nat, b: nat)
    requires Paged(tr) && tr(a).Page?
    requires RegionStart(a, tr(a).bits) <= b < RegionStart(a, tr(a).bits) + Pow2(tr(a).bits)
    ensures SameOutcome(tr(a), tr(b))
    ensures var n := tr(a).bits;
            var f := tr(a).frame;
            tr(b).address == Shl(Shr(f, n), n) + Or(Low(f, n), b - RegionStart(a, n))
  {
    var n := tr(a).bits;
    InRegion(a, b, n);
    assert Agree(tr, a, b) && Shaped(tr, b);
    assert tr(b).address == Or(tr(a).frame, Low(b, n));
    FrameWithOffset(tr(a).frame, Low(b, n), n);
  }

  lemma {:induction false} FrameWithOffset(f: nat, o: nat, n: nat)
    requires o < Pow2(n)
    ensures Or(f, o) == Shl(Shr(f, n), n) + Or(Low(f, n), o)
  {
    Split(f, n);
    OrSplit(Shr(f, n), Low(f, n), o, n);
  }

  lemma {:induction false} AlignedIsLinear(tr: nat -> Translation, a: nat)
    requires Paged(tr) && tr(a).Page? && FrameAligned(tr(a))
    ensures LinearInPage(tr, a)
  {
    var n := tr(a).bits;
    var start := RegionStart(a, n);
    AddressInPage(tr, a, start);
    forall b: nat | start <= b < start + Pow2(n)
      ensures tr(b).Page? && tr(b).address == tr(start).address + (b - start)
    {
      AddressInPage(tr, a, b);
    }
  }

  /** Where a frame has bits `f` below the page size, the address `f` bytes into the page
      translates no further than the start of the page. */
  lemma {:induction false} UnalignedIsNotLinear(tr: nat -> Translation, a: nat)
    requires Paged(tr) && tr(a).Page? && !FrameAligned(tr(a))
    ensures !LinearInPage(tr, a)
  {
    var n := tr(a).bits;
    var start, f := RegionStart(a, n), Low(tr(a).frame, n);
    AddressInPage(tr, a, start);
    AddressInPage(tr, a, start + f);
    OrSelf(f);
    assert tr(start + f).address == tr(start).address;
  }

  /** Exactly the frames with no bits below the page size translate linearly; a
      large-page entry with such bits ORs them into the in-page offset. */
  lemma {:induction false} LinearIffFrameAligned(tr: nat -> Translation, a: nat)
    requires Paged(tr) && tr(a).Page?
    ensures LinearInPage(tr, a) <==> FrameAligned(tr(a))
  {
    if FrameAligned(tr(a)) {
      AlignedIsLinear(tr, a);
    } else {
      UnalignedIsNotLinear(tr, a);
    }
  }

  /** Four-kilobyte pages always translate linearly. */
  lemma {:induction false} SmallPagesAreLinear(tr: nat -> Translation, a: nat)
    requires Paged(tr) && tr(a).Page? && tr(a).bits == 12
    ensures LinearInPage(tr, a)
  {
    assert Shaped(tr, a);
    LinearIffFrameAligned(tr, a);
  }
}
