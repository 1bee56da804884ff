/** Bitmap crash dumps: from a bitmap of physical pages, in 32-bit words, to the
    segments of the dump file. */
module CrashDump {
  import opened Bits
  import opened Memory
  import opened Segmented
  import opened SegmentedLayers

  const PAGE: nat := 0x1000

  type Word = w: nat | w < 0x1_0000_0000

  /** Whether physical page `p` is in the dump. */
  predicate Mapped(words: seq<Word>, p: nat)
    requires p < 32 * |words|
  {
    Bit(words[p / 32], p % 32)
  }

  /** The same for any page; the bitmap ends somewhere. */
  predicate Dumped(words: seq<Word>, p: nat) {
    p < 32 * |words| && Mapped(words, p)
  }

  /** The bitmap as one number, its first word lowest. */
  function Bitmap(words: seq<Word>): nat {
    if words == [] then 0 else words[0] + 0x1_0000_0000 * Bitmap(words[1..])
  }

  /** Page `p` is in the dump exactly if bit `p` of the bitmap is set. */
  lemma {:induction false} MappedIsBitOfBitmap(words: seq<Word>, p: nat, n: nat)
    requires p < 32 * |words| && n == 32
    ensures Mapped(words, p) <==> Bit(Bitmap(words), p)
    decreases p
  {
    FirstWord(words, n);
    if p < n {
      BitOfLow(Bitmap(words), p, n);
    } else {
      MappedIsBitOfBitmap(words[1..], p - n, n);
      LaterWord(words, p);
      ShrShr(Bitmap(words), n, p - n);
    }
  }

  lemma {:induction false} FirstWord(words: seq<Word>, n: nat)
    requires words != [] && n == 32
    ensures Low(Bitmap(words), n) == words[0] && Shr(Bitmap(words), n) == Bitmap(words[1..])
  {
    assert Pow2(n) == 0x1_0000_0000 by { Pow2Values(); }
    ShlIsMul(Bitmap(words[1..]), n);
    Join(Bitmap(words[1..]), words[0], n);
  }

  lemma {:induction false} LaterWord(words: seq<Word>, p: nat)
    requires 32 <= p < 32 * |words|
    ensures Mapped(words, p) <==> Mapped(words[1..], p - 32)
  {
    assert p / 32 == (p - 32) / 32 + 1 && p % 32 == (p - 32) % 32;
  }

  lemma {:induction false} BitOfLow(x: nat, p: nat, n: nat)
    requires p < n
    ensures Bit(x, p) == Bit(Low(x, n), p)
  {
    ShrLow(x, p, n - p);
  }

  /** The number of dumped pages below page `n`. */
  function Rank(words: seq<Word>, n: nat): nat
    requires n <= 32 * |words|
  {
    if n == 0 then 0 else Rank(words, n - 1) + if Mapped(words, n - 1) then 1 else 0
  }

  /** The variables of the scan: the segments so far, the first page of an open run with
      its file offset, and the file offset of the next page. */
  datatype Scan = Scan(segments: seq<Segment>, first: Option<nat>, firstOffset: nat, offset: nat)

  /** The segment of the pages `first` to `end - 1`. */
  function Run(first: nat, end: nat, fileOffset: nat): Segment
    requires first <= end
  {
    Segment(first * PAGE, fileOffset, (end - first) * PAGE, (end - first) * PAGE)
  }

  predicate OpenBefore(s: Scan, end: nat) {
    s.first.Some? ==> s.first.value < end
  }

  function CloseRun(s: Scan, end: nat): (r: Scan)
    requires OpenBefore(s, end)
    ensures r.first == None
  {
    if s.first.Some? then
      s.(segments := s.segments + [Run(s.first.value, end, s.firstOffset)], first := None)
    else s
  }

  function OpenRun(s: Scan, page: nat): Scan {
    if s.first.None? then s.(first := Some(page), firstOffset := s.offset) else s
  }

  /** The scan one page at a time. */
  function ScanPage(s: Scan, page: nat, mapped: bool): (r: Scan)
    requires OpenBefore(s, page)
    ensures OpenBefore(r, page + 1)
  {
    if mapped then OpenRun(s, page).(offset := s.offset + PAGE) else CloseRun(s, page)
  }

  function ScanTo(words: seq<Word>, header: nat, n: nat): (s: Scan)
    requires n <= 32 * |words|
    ensures OpenBefore(s, n)
  {
    if n == 0 then Scan([], None, 0, header)
    else ScanPage(ScanTo(words, header, n - 1), n - 1, Mapped(words, n - 1))
  }

  /** What the scan of the first `n` pages has established. */
  ghost predicate Inv(words: seq<Word>, header: nat, n: nat, s: Scan)
    requires n <= 32 * |words|
  {
    && s.offset == header + Rank(words, n) * PAGE
    && (forall i :: 0 <= i < |s.segments| ==> IsRun(words, header, n, s.segments[i]))
    && (forall i, j :: 0 <= i < j < |s.segments| ==> s.segments[i].End() < s.segments[j].start)
    && (forall i :: 0 <= i < |s.segments| && s.first.Some? ==> s.segments[i].End() < s.first.value * PAGE)
    && (s.first.Some? ==>
          && s.first.value < n && StartsRun(words, s.first.value)
          && (forall p: nat :: s.first.value <= p < n ==> Mapped(words, p))
          && s.firstOffset == header + Rank(words, s.first.value) * PAGE)
    && (s.first.None? ==> n == 0 || !Mapped(words, n - 1))
    && (forall p: nat {:trigger HasPage(s.segments, p)} :: p < n && Mapped(words, p) ==>
          (s.first.Some? && s.first.value <= p) || HasPage(s.segments, p))
  }

  /** No dumped page comes right before page `p`. */
  predicate StartsRun(words: seq<Word>, p: nat)
    requires p <= 32 * |words|
  {
    p == 0 || !Mapped(words, p - 1)
  }

  /** A maximal run of dumped pages below page `n`, at the place its rank gives. */
  ghost predicate IsRun(words: seq<Word>, header: nat, n: nat, s: Segment)
    requires n <= 32 * |words|
  {
    && s.start % PAGE == 0 && s.length % PAGE == 0 && s.length > 0 && s.mappedLength == s.length
    && s.End() <= n * PAGE
    && (forall p: nat :: s.start <= p * PAGE < s.End() ==> Mapped(words, p))
    && StartsRun(words, s.start / PAGE)
    && (s.End() / PAGE < 32 * |words| ==> !Mapped(words, s.End() / PAGE))
    && s.mapped == header + Rank(words, s.start / PAGE) * PAGE
  }

  lemma {:induction false} ScanKeepsInv(words: seq<Word>, header: nat, n: nat)
    requires n <= 32 * |words|
    ensures Inv(words, header, n, ScanTo(words, header, n))
  {
    if n > 0 {
      ScanKeepsInv(words, header, n - 1);
      PageKeepsInv(words, header, n - 1, ScanTo(words, header, n - 1));
    }
  }

  lemma {:induction false} PageKeepsInv(words: seq<Word>, header: nat, p: nat, s: Scan)
    requires p < 32 * |words| && OpenBefore(s, p) && Inv(words, header, p, s)
    ensures Inv(words, header, p + 1, ScanPage(s, p, Mapped(words, p)))
  {
    if Mapped(words, p) {
      InvAfterMapped(words, header, p, s);
    } else {
      InvAfterUnmapped(words, header, p, s);
    }
  }

  lemma {:induction false} InvAfterMapped(words: seq<Word>, header: nat, p: nat, s: Scan)
    requires p < 32 * |words| && Mapped(words, p) && Inv(words, header, p, s)
    ensures OpenBefore(s, p) && Inv(words, header, p + 1, ScanPage(s, p, true))
  {
    var s' := ScanPage(s, p, true);
    assert s'.segments == s.segments;
    if s.first.None? { RunsEndBefore(words, header, p, s); }
  }

  lemma {:induction false} RunsEndBefore(words: seq<Word>, header: nat, p: nat, s: Scan)
    requires p < 32 * |words| && Mapped(words, p) && Inv(words, header, p, s) && s.first.None?
    ensures forall i :: 0 <= i < |s.segments| ==> s.segments[i].End() < p * PAGE
  {
    forall i | 0 <= i < |s.segments| ensures s.segments[i].End() < p * PAGE {
      assert IsRun(words, header, p, s.segments[i]);
      var e := s.segments[i].End() / PAGE;
      assert s.segments[i].End() == e * PAGE && e <= p;
    }
  }

  lemma {:induction false} InvAfterUnmapped(words: seq<Word>, header: nat, p: nat, s: Scan)
    requires p < 32 * |words| && !Mapped(words, p) && Inv(words, header, p, s)
    ensures OpenBefore(s, p) && Inv(words, header, p + 1, ScanPage(s, p, false))
  {
    forall i | 0 <= i < |s.segments| ensures IsRun(words, header, p + 1, s.segments[i]) {
      assert IsRun(words, header, p, s.segments[i]);
    }
    if s.first.Some? {
      RunIsRun(words, header, s.first.value, p, s.firstOffset);
      var r := Run(s.first.value, p, s.firstOffset);
      forall q: nat | q < p + 1 && Mapped(words, q) ensures HasPage(s.segments + [r], q) {
        StillHasPage(s.segments, r, q);
        assert q < p;
      }
    }
  }

  lemma {:induction false} StillHasPage(segs: seq<Segment>, r: Segment, p: nat)
    ensures HasPage(segs, p) || r.Contains(p * PAGE) ==> HasPage(segs + [r], p)
  {
    if HasPage(segs, p) {
      var i :| 0 <= i < |segs| && segs[i].Contains(p * PAGE);
      assert (segs + [r])[i].Contains(p * PAGE);
    } else if r.Contains(p * PAGE) {
      assert (segs + [r])[|segs|].Contains(p * PAGE);
    }
  }

  lemma {:induction false} RunIsRun(words: seq<Word>, header: nat, first: nat, end: nat, fileOffset: nat)
    requires first < end <= 32 * |words| && StartsRun(words, first)
    requires forall p: nat :: first <= p < end ==> Mapped(words, p)
    requires end < 32 * |words| ==> !Mapped(words, end)
    requires fileOffset == header + Rank(words, first) * PAGE
    ensures IsRun(words, header, end, Run(first, end, fileOffset))
  {
    var r := Run(first, end, fileOffset);
    assert r.start / PAGE == first && r.End() == end * PAGE && r.End() / PAGE == end;
  }

  // ---- the fast paths ----

  lemma {:induction false} PageOfWord(words: seq<Word>, k: nat, j: nat)
    requires k < |words| && j < 32
    ensures Mapped(words, 32 * k + j) <==> Bit(words[k], j)
  {
    assert (32 * k + j) / 32 == k && (32 * k + j) % 32 == j;
  }

  /** A word of ones opens one run and passes 32 pages. */
  lemma {:induction false} ScanOnes(words: seq<Word>, header: nat, k: nat, j: nat)
    requires k < |words| && words[k] == 0xFFFF_FFFF && 1 <= j <= 32
    ensures var s := ScanTo(words, header, 32 * k);
            ScanTo(words, header, 32 * k + j) == OpenRun(s, 32 * k).(offset := s.offset + j * PAGE)
  {
    var n, bits := 32 * k + j - 1, 32;
    assert Mapped(words, n) by {
      Pow2Values();
      BitOfOnes(bits, j - 1);
      PageOfWord(words, k, j - 1);
    }
    assert ScanTo(words, header, n + 1) == ScanPage(ScanTo(words, header, n), n, true);
    if j > 1 {
      ScanOnes(words, header, k, j - 1);
    }
  }

  /** A word of zeros closes the run before it and passes 32 pages. */
  lemma {:induction false} ScanZeros(words: seq<Word>, header: nat, k: nat, j: nat)
    requires k < |words| && words[k] == 0 && 1 <= j <= 32
    ensures ScanTo(words, header, 32 * k + j) == CloseRun(ScanTo(words, header, 32 * k), 32 * k)
  {
    var n := 32 * k + j - 1;
    BitOfZero(j - 1);
    PageOfWord(words, k, j - 1);
    assert ScanTo(words, header, n + 1) == CloseRun(ScanTo(words, header, n), n);
    if j > 1 {
      ScanZeros(words, header, k, j - 1);
    }
  }

  /** The bit-by-bit path, for a word with pages both in and out of the dump. */
  method ScanBits(words: seq<Word>, ghost header: nat, outer: nat, start: Scan) returns (s: Scan)
    requires outer < |words| && start == ScanTo(words, header, 32 * outer)
    ensures s == ScanTo(words, header, 32 * outer + 32)
  {
    s := start;
    for inner := 0 to 32
      invariant s == ScanTo(words, header, 32 * outer + inner)
    {
      PageOfWord(words, outer, inner);
      AndBit(words[outer], inner);
      var current := outer * 32 + inner;
      if And(words[outer], Pow2(inner)) != 0 {
        if s.first.None? {
          s := s.(firstOffset := s.offset, first := Some(current));
        }
        s := s.(offset := s.offset + PAGE);
      } else if s.first.Some? {
        var length := (current - 1 - s.first.value + 1) * PAGE;
        s := s.(segments := s.segments + [Segment(s.first.value * PAGE, s.firstOffset, length, length)], first := None);
      }
    }
  }

  /** `_load_segments` for bitmap dumps: the word-at-a-time scan with its two fast paths
      computes what the scan one page at a time does. */
  method LoadSegments(words: seq<Word>, header: nat) returns (r: Result<seq<Segment>>)
    ensures r == Loaded(words, header)
  {
    var s := Scan([], None, 0, header);
    for outer := 0 to |words|
      invariant s == ScanTo(words, header, 32 * outer)
    {
      if words[outer] == 0xFFFF_FFFF {
        ScanOnes(words, header, outer, 32);
        if s.first.None? {
          s := s.(firstOffset := s.offset, first := Some(outer * 32));
        }
        s := s.(offset := s.offset + 32 * PAGE);
      } else if words[outer] == 0 {
        ScanZeros(words, header, outer, 32);
        if s.first.Some? {
          var lastBit := (outer - 1) * 32 + 31;
          var length := (lastBit - s.first.value + 1) * PAGE;
          s := s.(segments := s.segments + [Segment(s.first.value * PAGE, s.firstOffset, length, length)],
              first := None);
        }
      } else {
        s := ScanBits(words, header, outer, s);
      }
    }
    var segments := s.segments;
    if s.first.Some? {
      var lastBitSeen := (|words| - 1) * 32 + 31;
      var length := (lastBitSeen - s.first.value + 1) * PAGE;
      segments := segments + [Segment(s.first.value * PAGE, s.firstOffset, length, length)];
    }
    return if segments == [] then Err(Malformed) else Ok(segments);
  }

  /** The segments of a bitmap; having none is an error. */
  function Loaded(words: seq<Word>, header: nat): Result<seq<Segment>> {
    var segments := CloseRun(ScanTo(words, header, 32 * |words|), 32 * |words|).segments;
    if segments == [] then Err(Malformed) else Ok(segments)
  }

  // ---- what the segments are ----

  /** The maximal runs of dumped pages, in order, with a gap between any two; no dumped page
      is missing, and each run lies where its rank puts it. */
  ghost predicate MaximalRuns(words: seq<Word>, header: nat, segs: seq<Segment>) {
    && (forall i :: 0 <= i < |segs| ==> IsRun(words, header, 32 * |words|, segs[i]))
    && (forall i, j :: 0 <= i < j < |segs| ==> segs[i].End() < segs[j].start)
    && (forall p: nat {:trigger HasPage(segs, p)} :: p < 32 * |words| && Mapped(words, p) ==> HasPage(segs, p))
  }

  ghost predicate HasPage(segs: seq<Segment>, p: nat) {
    exists i :: 0 <= i < |segs| && segs[i].Contains(p * PAGE)
  }

  lemma {:induction false} ClosedAreRuns(words: seq<Word>, header: nat, n: nat, s: Scan)
    requires n == 32 * |words| && s == ScanTo(words, header, n)
    ensures var segs := CloseRun(s, n).segments;
            && (forall i :: 0 <= i < |segs| ==> IsRun(words, header, n, segs[i]))
            && (forall i, j :: 0 <= i < j < |segs| ==> segs[i].End() < segs[j].start)
  {
    ScanKeepsInv(words, header, n);
    if s.first.Some? { RunIsRun(words, header, s.first.value, n, s.firstOffset); }
  }

  lemma {:induction false} ClosedHavePages(words: seq<Word>, header: nat, n: nat, s: Scan, p: nat)
    requires n == 32 * |words| && s == ScanTo(words, header, n) && p < n && Mapped(words, p)
    ensures HasPage(CloseRun(s, n).segments, p)
  {
    ScanKeepsInv(words, header, n);
    if s.first.Some? {
      assert s.first.value <= p || HasPage(s.segments, p);
      StillHasPage(s.segments, Run(s.first.value, n, s.firstOffset), p);
    }
  }

  lemma {:induction false} ClosedAreMaximalRuns(words: seq<Word>, header: nat)
    ensures MaximalRuns(words, header, CloseRun(ScanTo(words, header, 32 * |words|), 32 * |words|).segments)
  {
    var n := 32 * |words|;
    var s := ScanTo(words, header, n);
    ClosedAreRuns(words, header, n, s);
    forall p: nat | p < n && Mapped(words, p) ensures HasPage(CloseRun(s, n).segments, p) {
      ClosedHavePages(words, header, n, s, p);
    }
  }

  /** The loaded segments are the maximal runs; loading fails exactly when no page is dumped. */
  lemma {:induction false} LoadedAreMaximalRuns(words: seq<Word>, header: nat)
    ensures Loaded(words, header).Ok? ==> MaximalRuns(words, header, Loaded(words, header).value)
    ensures Loaded(words, header).Ok? <==> exists p: nat :: Dumped(words, p)
  {
    ClosedAreMaximalRuns(words, header);
    var segs := CloseRun(ScanTo(words, header, 32 * |words|), 32 * |words|).segments;
    if segs != [] {
      RunPage(words, header, segs[0], segs[0].start / PAGE);
    } else {
      forall p: nat ensures !Dumped(words, p) {
        assert !HasPage(segs, p);
      }
    }
  }

  lemma {:induction false} RunPage(words: seq<Word>, header: nat, s: Segment, p: nat)
    requires IsRun(words, header, 32 * |words|, s) && p == s.start / PAGE
    ensures Dumped(words, p)
  {
    assert p * PAGE == s.start;
  }

  lemma {:induction false} RankInRun(words: seq<Word>, first: nat, p: nat)
    requires first <= p <= 32 * |words|
    requires forall q: nat :: first <= q < p ==> Mapped(words, q)
    ensures Rank(words, p) == Rank(words, first) + (p - first)
    decreases p
  {
    if first < p { RankInRun(words, first, p - 1); }
  }

  lemma {:induction false} RunsAreSorted(words: seq<Word>, header: nat, segs: seq<Segment>, max: int)
    requires MaximalRuns(words, header, segs)
    ensures Sorted(segs, max)
  {
    assert forall i :: 0 <= i < |segs| ==> segs[i].length > 0;
  }

  /** Through the loaded segments, an address of the physical layer stands for a byte of the
      file exactly when its page is dumped: the byte at the page's rank after the header. */
  lemma {:induction false} DumpTarget(words: seq<Word>, header: nat, segs: seq<Segment>, a: nat)
    requires MaximalRuns(words, header, segs)
    ensures Target(segs, a) ==
            if Dumped(words, a / PAGE) then Some(header + Rank(words, a / PAGE) * PAGE + a % PAGE) else None
  {
    RunsAreSorted(words, header, segs, 0);
    if Dumped(words, a / PAGE) {
      DumpedTarget(words, header, segs, a, a / PAGE, a % PAGE);
    } else {
      UnmappedSegment(words, header, segs, a);
    }
  }

  lemma {:induction false} DumpedTarget(words: seq<Word>, header: nat, segs: seq<Segment>, a: nat, p: nat, o: nat)
    requires MaximalRuns(words, header, segs) && Sorted(segs, 0)
    requires Dumped(words, p) && p == a / PAGE && o == a % PAGE
    ensures Target(segs, a) == Some(header + Rank(words, p) * PAGE + o)
  {
    var i := MappedSegment(words, header, segs, a);
    SegmentAtIndex(segs, 0, i, a);
  }

  lemma {:induction false} MappedSegment(words: seq<Word>, header: nat, segs: seq<Segment>, a: nat) returns (i: nat)
    requires MaximalRuns(words, header, segs) && Dumped(words, a / PAGE)
    ensures i < |segs| && segs[i].Contains(a)
    ensures segs[i].mapped + (a - segs[i].start) == header + Rank(words, a / PAGE) * PAGE + a % PAGE
  {
    var p := a / PAGE;
    assert HasPage(segs, p);
    i :| 0 <= i < |segs| && segs[i].Contains(p * PAGE);
    RunTarget(words, header, segs[i], a);
  }

  lemma {:induction false} UnmappedSegment(words: seq<Word>, header: nat, segs: seq<Segment>, a: nat)
    requires forall i :: 0 <= i < |segs| ==> IsRun(words, header, 32 * |words|, segs[i])
    requires !Dumped(words, a / PAGE)
    ensures SegmentAt(segs, a) == None
  {
    forall i | 0 <= i < |segs| ensures !segs[i].Contains(a) {
      if segs[i].Contains(a) {
        RunCovers(words, header, segs[i], a);
      }
    }
    SegmentAtNone(segs, a);
  }

  lemma {:induction false} RunCovers(words: seq<Word>, header: nat, s: Segment, a: nat)
    requires IsRun(words, header, 32 * |words|, s) && s.Contains(a)
    ensures Dumped(words, a / PAGE)
  {
    var f, e := s.start / PAGE, s.End() / PAGE;
    assert s.start == f * PAGE && s.End() == e * PAGE;
    assert s.start <= a / PAGE * PAGE < s.End();
  }

  lemma {:induction false} RunTarget(words: seq<Word>, header: nat, s: Segment, a: nat)
    requires IsRun(words, header, 32 * |words|, s) && s.Contains(a / PAGE * PAGE)
    ensures s.Contains(a) && a / PAGE < 32 * |words|
    ensures s.mapped + (a - s.start) == header + Rank(words, a / PAGE) * PAGE + a % PAGE
  {
    var f, e, p := s.start / PAGE, s.End() / PAGE, a / PAGE;
    assert s.start == f * PAGE && s.End() == e * PAGE && f <= p < e;
    RankInRun(words, f, p);
  }

  /** The segments have the length of the dumped pages together. */
  lemma {:induction false} ScanLength(words: seq<Word>, header: nat, n: nat)
    requires n <= 32 * |words|
    ensures var s := ScanTo(words, header, n);
            SegmentsLength(s.segments) + (if s.first.Some? then (n - s.first.value) * PAGE else 0)
                == Rank(words, n) * PAGE
  {
    if n > 0 {
      ScanLength(words, header, n - 1);
      var s := ScanTo(words, header, n - 1);
      if s.first.Some? && !Mapped(words, n - 1) {
        SegmentsLengthSnoc(s.segments, Run(s.first.value, n - 1, s.firstOffset));
      }
    }
  }

  function SegmentsLength(segs: seq<Segment>): nat {
    if segs == [] then 0 else segs[0].length + SegmentsLength(segs[1..])
  }

  lemma {:induction false} SegmentsLengthSnoc(segs: seq<Segment>, s: Segment)
    ensures SegmentsLength(segs + [s]) == SegmentsLength(segs) + s.length
  {
    if segs != [] {
      assert (segs + [s])[1..] == segs[1..] + [s];
      SegmentsLengthSnoc(segs[1..], s);
    }
  }

  lemma {:induction false} LoadedLength(words: seq<Word>, header: nat)
    requires Loaded(words, header).Ok?
    ensures SegmentsLength(Loaded(words, header).value) == Rank(words, 32 * |words|) * PAGE
  {
    var n := 32 * |words|;
    var s := ScanTo(words, header, n);
    ScanLength(words, header, n);
    if s.first.Some? {
      SegmentsLengthSnoc(s.segments, Run(s.first.value, n, s.firstOffset));
    }
  }

  // ---- reading a dump ----

  /** The file holds the header and every dumped page. */
  predicate Complete(words: seq<Word>, header: nat, file: seq<byte>) {
    header + Rank(words, 32 * |words|) * PAGE <= |file|
  }

  lemma {:induction false} RankBelow(words: seq<Word>, p: nat, n: nat)
    requires p < n <= 32 * |words| && Mapped(words, p)
    ensures Rank(words, p) + 1 <= Rank(words, n)
    decreases n
  {
    if p < n - 1 { RankBelow(words, p, n - 1); }
  }

  /** The byte of the memory a complete dump was made of: the byte at the rank of its page, or
      zero where the page is not dumped. */
  function DumpedByte(words: seq<Word>, header: nat, file: seq<byte>, a: nat): byte
    requires Complete(words, header, file)
  {
    if Dumped(words, a / PAGE) then
      RankBelow(words, a / PAGE, 32 * |words|);
      file[header + Rank(words, a / PAGE) * PAGE + a % PAGE]
    else 0
  }

  ghost predicate AllDumped(words: seq<Word>, offset: nat, end: nat) {
    forall a: nat {:trigger Dumped(words, a / PAGE)} :: offset <= a < end ==> Dumped(words, a / PAGE)
  }

  lemma {:induction false} DumpedIsFound(words: seq<Word>, header: nat, segs: seq<Segment>, file: seq<byte>, a: nat)
    requires MaximalRuns(words, header, segs) && Complete(words, header, file)
    ensures Findable(segs, |file| - 1, a) <==> Dumped(words, a / PAGE)
  {
    if Dumped(words, a / PAGE) {
      var i := MappedSegment(words, header, segs, a);
      RunsAreSorted(words, header, segs, 0);
      SegmentAtIndex(segs, 0, i, a);
      RankBelow(words, a / PAGE, 32 * |words|);
      if segs[i].start == a { assert segs[i].start % PAGE == 0; }
    } else {
      UnmappedSegment(words, header, segs, a);
    }
  }

  /** Every address shows the byte of the memory the dump was made of. */
  lemma {:induction false} DumpedIsShown(words: seq<Word>, header: nat, segs: seq<Segment>, file: seq<byte>, a: nat)
    requires MaximalRuns(words, header, segs) && Complete(words, header, file)
    ensures Target(segs, a).Some? ==> Target(segs, a).value < |file|
    ensures ByteOf(segs, file, a) == DumpedByte(words, header, file, a)
  {
    DumpTarget(words, header, segs, a);
    if Dumped(words, a / PAGE) { RankBelow(words, a / PAGE, 32 * |words|); }
  }

  lemma {:induction false} DumpIsFound(words: seq<Word>, header: nat, segs: seq<Segment>, file: seq<byte>,
                                       offset: nat, length: nat, end: nat)
    requires MaximalRuns(words, header, segs) && Complete(words, header, file)
    requires end == offset + Max(length, 1)
    ensures AllFindable(segs, |file| - 1, offset, length) <==> AllDumped(words, offset, end)
  {
    if AllFindable(segs, |file| - 1, offset, length) {
      forall a: nat | offset <= a < end ensures Dumped(words, a / PAGE) {
        DumpedIsFound(words, header, segs, file, a);
      }
    } else {
      var a: nat :| offset <= a < end && !Findable(segs, |file| - 1, a);
      DumpedIsFound(words, header, segs, file, a);
    }
  }

  lemma {:induction false} DumpIsShown(words: seq<Word>, header: nat, segs: seq<Segment>, file: seq<byte>,
                                       offset: nat, end: nat)
    requires MaximalRuns(words, header, segs) && Complete(words, header, file)
    requires offset <= end
    ensures TargetsReadable(segs, |file|, offset, end - offset)
    ensures forall a: nat :: offset <= a < end ==> ByteOf(segs, file, a) == DumpedByte(words, header, file, a)
  {
    forall a: nat | offset <= a < end
      ensures Target(segs, a).Some? ==> Target(segs, a).value < |file|
      ensures ByteOf(segs, file, a) == DumpedByte(words, header, file, a)
    {
      DumpedIsShown(words, header, segs, file, a);
    }
  }

  /** `stop` is the first address a request needs whose page is not dumped. */
  ghost predicate FirstUndumped(words: seq<Word>, offset: nat, length: nat, stop: nat) {
    offset <= stop < offset + Max(length, 1) && !Dumped(words, stop / PAGE) && AllDumped(words, offset, stop)
  }

  lemma {:induction false} MissingIsUndumped(words: seq<Word>, header: nat, segs: seq<Segment>, file: seq<byte>,
                                             offset: nat, length: nat, stop: nat)
    requires MaximalRuns(words, header, segs) && Complete(words, header, file)
    requires FirstMissing(segs, |file| - 1, offset, length, stop)
    ensures FirstUndumped(words, offset, length, stop)
  {
    DumpedIsFound(words, header, segs, file, stop);
    forall a: nat | offset <= a < stop ensures Dumped(words, a / PAGE) {
      DumpedIsFound(words, header, segs, file, a);
    }
  }

  /** A bitmap dump opened as a layer and read: a strict read of complete pages gives back the
      memory the dump was made of; a padded one has zeros for pages that are not dumped. */
  method ReadDump(base: BufferDataLayer, words: seq<Word>, header: nat, offset: nat, length: nat, pad: bool)
    returns (r: Result<seq<byte>>)
    requires Complete(words, header, base.buffer)
    ensures r.Ok? <==> (exists p: nat :: Dumped(words, p))
                       && (pad || AllDumped(words, offset, offset + Max(length, 1)))
    ensures r.Ok? ==> |r.value| == length
    ensures r.Ok? ==> forall k :: 0 <= k < length ==>
              r.value[k] == DumpedByte(words, header, base.buffer, offset + k)
    ensures r.Err? && (exists p: nat :: Dumped(words, p)) ==>
              exists stop: nat :: r.error == InvalidAddress(stop) && FirstUndumped(words, offset, length, stop)
  {
    var segments := LoadSegments(words, header);
    LoadedAreMaximalRuns(words, header);
    if segments.Err? {
      return Err(segments.error);
    }
    RunsAreSorted(words, header, segments.value, base.MaximumAddress());
    DumpIsFound(words, header, segments.value, base.buffer, offset, length, offset + Max(length, 1));
    DumpIsShown(words, header, segments.value, base.buffer, offset, offset + length);
    var layer := new SegmentedLayer(base, "base", segments.value);
    r := layer.Read(offset, length, pad);
    if r.Err? {
      ghost var stop: nat :| r.error == InvalidAddress(stop)
        && FirstMissing(segments.value, base.MaximumAddress(), offset, length, stop);
      MissingIsUndumped(words, header, segments.value, base.buffer, offset, length, stop);
    }
  }
}
