/** `mapping` of the Intel layers: runs of pieces that continue each other, both
    virtually and in the layer below, become one piece. */
module Coalescing {
  import opened Memory
  import opened Pieces

  /** Whether `q` continues `p` on both sides of the mapping. */
  predicate Continues(p: Piece, q: Piece) {
    p.End() == q.offset && p.mappedOffset + p.mappedLength == q.mappedOffset && p.layer == q.layer
  }

  function Extend(p: Piece, q: Piece): Piece {
    p.(length := p.length + q.length, mappedLength := p.mappedLength + q.mappedLength)
  }

  function CoalesceFrom(stash: Piece, ps: seq<Piece>): seq<Piece>
    decreases |ps|
  {
    if ps == [] then [stash]
    else if Continues(stash, ps[0]) then CoalesceFrom(Extend(stash, ps[0]), ps[1..])
    else [stash] + CoalesceFrom(ps[0], ps[1..])
  }

  lemma {:induction false} CoalesceStep(out: seq<Piece>, stash: Piece, ps: seq<Piece>, i: nat)
    requires i < |ps|
    ensures out + CoalesceFrom(stash, ps[i..]) ==
            if Continues(stash, ps[i]) then out + CoalesceFrom(Extend(stash, ps[i]), ps[i + 1..])
            else out + [stash] + CoalesceFrom(ps[i], ps[i + 1..])
  {
    assert ps[i..][1..] == ps[i + 1..];
    assert out + ([stash] + CoalesceFrom(ps[i], ps[i + 1..])) == out + [stash] + CoalesceFrom(ps[i], ps[i + 1..]);
  }

  function Coalesce(ps: seq<Piece>): seq<Piece> {
    if ps == [] then [] else CoalesceFrom(ps[0], ps[1..])
  }

  /** What the generator yields: an exception from below loses the stashed piece. */
  function CoalesceMapping(m: Mapping): Mapping {
    var all := Coalesce(m.pieces);
    if m.fault == None || all == [] then Mapping(all, m.fault) else Mapping(all[..|all| - 1], m.fault)
  }

  /** `mapping`: one pass over the pieces of `_mapping` with the latest run stashed. */
  method CoalesceRuns(chunks: Mapping) returns (m: Mapping)
    ensures m == CoalesceMapping(chunks)
  {
    var stash: Option<Piece>, out: seq<Piece> := None, [];
    var ps := chunks.pieces;
    ghost var goal := Coalesce(ps);
    var i := 0;
    while i < |ps|
      invariant i <= |ps|
      invariant stash.None? <==> i == 0
      invariant i == 0 ==> out == []
      invariant i > 0 ==> goal == out + CoalesceFrom(stash.value, ps[i..])
    {
      var p := ps[i];
      if stash.Some? {
        CoalesceStep(out, stash.value, ps, i);
      }
      if stash.None? || !Continues(stash.value, p) {
        if stash.Some? {
          out := out + [stash.value];
        }
        stash := Some(p);
      } else {
        stash := Some(Extend(stash.value, p));
      }
      i := i + 1;
    }
    assert stash.Some? ==> goal == out + [stash.value];
    if chunks.fault.Some? {
      return Mapping(out, chunks.fault);
    }
    return Mapping(if stash.Some? then out + [stash.value] else out, None);
  }

  /** No two neighbours could have been one piece. */
  predicate Maximal(ps: seq<Piece>) {
    forall i :: 0 <= i < |ps| - 1 ==> !Continues(ps[i], ps[i + 1])
  }

  lemma {:induction false} CoalesceFromMeaning(stash: Piece, ps: seq<Piece>, a: int)
    requires stash.mappedLength == stash.length && Linear(ps)
    ensures Lookup(CoalesceFrom(stash, ps), a) == Lookup([stash] + ps, a)
    ensures TotalLength(CoalesceFrom(stash, ps)) == stash.length + TotalLength(ps)
    ensures Linear(CoalesceFrom(stash, ps))
    decreases |ps|
  {
    assert ([stash] + ps)[1..] == ps;
    if ps != [] {
      assert ps == [ps[0]] + ps[1..];
      if Continues(stash, ps[0]) {
        assert ([Extend(stash, ps[0])] + ps[1..])[1..] == ps[1..];
        CoalesceFromMeaning(Extend(stash, ps[0]), ps[1..], a);
      } else {
        CoalesceFromMeaning(ps[0], ps[1..], a);
        assert CoalesceFrom(stash, ps)[1..] == CoalesceFrom(ps[0], ps[1..]);
      }
    }
  }

  /** Coalescing keeps the byte-to-place map and the total length. */
  lemma {:induction false} CoalesceMeaning(ps: seq<Piece>, a: int)
    requires Linear(ps)
    ensures Lookup(Coalesce(ps), a) == Lookup(ps, a)
    ensures TotalLength(Coalesce(ps)) == TotalLength(ps)
    ensures Linear(Coalesce(ps))
  {
    if ps != [] {
      assert ps == [ps[0]] + ps[1..];
      CoalesceFromMeaning(ps[0], ps[1..], a);
    }
  }

  /** Pieces of a request `[lo, hi)` over a buffer of `limit` bytes. */
  ghost predicate Chunks(ps: seq<Piece>, lo: int, hi: int, limit: nat) {
    Ascending(ps) && Within(ps, lo, hi) && Positive(ps) && PiecesInBounds(ps, limit)
  }

  /** `c` starts where `p` does, on both sides of the mapping. */
  predicate StartsLike(c: Piece, p: Piece) {
    c.offset == p.offset && c.mappedOffset == p.mappedOffset && c.layer == p.layer
  }

  lemma {:induction false} ConsMaximal(stash: Piece, p: Piece, cs: seq<Piece>, hi: int, limit: nat)
    requires cs != [] && Chunks(cs, stash.End(), hi, limit) && Chunks([stash], stash.offset, hi, limit)
    requires Maximal(cs) && StartsLike(cs[0], p) && !Continues(stash, p)
    ensures Chunks([stash] + cs, stash.offset, hi, limit) && Maximal([stash] + cs)
  {
    var all := [stash] + cs;
    assert [stash][0] == stash;
    ConsPiece(stash, cs, hi);
    assert forall i :: 0 < i < |all| ==> all[i] == cs[i - 1];
  }

  lemma {:induction false} TailChunks(ps: seq<Piece>, lo: int, hi: int, limit: nat)
    requires ps != [] && Chunks(ps, lo, hi, limit)
    ensures lo <= ps[0].offset && Chunks([ps[0]], ps[0].offset, hi, limit) && Chunks(ps[1..], ps[0].End(), hi, limit)
  {
    forall i | 0 <= i < |ps[1..]| ensures ps[0].End() <= ps[1..][i].offset {
      assert ps[1..][i] == ps[i + 1];
    }
  }

  lemma {:induction false} CoalesceFromShape(stash: Piece, ps: seq<Piece>, hi: int, limit: nat)
    requires Chunks([stash], stash.offset, hi, limit) && Chunks(ps, stash.End(), hi, limit)
    ensures var cs := CoalesceFrom(stash, ps);
            cs != [] && Chunks(cs, stash.offset, hi, limit) && Maximal(cs) && StartsLike(cs[0], stash)
    decreases |ps|
  {
    if ps != [] {
      TailChunks(ps, stash.End(), hi, limit);
      if Continues(stash, ps[0]) {
        ExtendChunk(stash, ps[0], hi, limit);
        CoalesceFromShape(Extend(stash, ps[0]), ps[1..], hi, limit);
      } else {
        CoalesceFromShape(ps[0], ps[1..], hi, limit);
        var cs := CoalesceFrom(ps[0], ps[1..]);
        WithinEarlier(cs, stash.End(), ps[0].offset, hi);
        ConsMaximal(stash, ps[0], cs, hi, limit);
      }
    }
  }

  lemma {:induction false} WithinEarlier(ps: seq<Piece>, lo: int, lo': int, hi: int)
    requires Within(ps, lo', hi) && lo <= lo'
    ensures Within(ps, lo, hi)
  {
  }

  lemma {:induction false} ExtendChunk(p: Piece, q: Piece, hi: int, limit: nat)
    requires Chunks([p], p.offset, hi, limit) && Chunks([q], q.offset, hi, limit) && Continues(p, q)
    ensures Chunks([Extend(p, q)], p.offset, hi, limit)
  {
    assert [p][0] == p && [q][0] == q;
  }

  /** Coalescing keeps the pieces ascending and inside the request, and leaves no two
      neighbours that could be joined. */
  lemma {:induction false} CoalesceShape(ps: seq<Piece>, lo: int, hi: int, limit: nat)
    requires Ascending(ps) && Within(ps, lo, hi) && Positive(ps) && PiecesInBounds(ps, limit)
    ensures var cs := Coalesce(ps);
            PiecesInBounds(cs, limit) && Ascending(cs) && Within(cs, lo, hi) && Positive(cs) && Maximal(cs)
  {
    if ps != [] {
      TailChunks(ps, lo, hi, limit);
      CoalesceFromShape(ps[0], ps[1..], hi, limit);
      WithinEarlier(Coalesce(ps), lo, ps[0].offset, hi);
    }
  }

  /** The same for what `mapping` yields, also when an exception cuts it short. */
  lemma {:induction false} CoalesceMappingShape(m: Mapping, lo: int, hi: int, limit: nat)
    requires var ps := m.pieces;
             Ascending(ps) && Within(ps, lo, hi) && Positive(ps) && PiecesInBounds(ps, limit) && Linear(ps)
    ensures var ps := CoalesceMapping(m).pieces;
            && PiecesInBounds(ps, limit) && Ascending(ps) && Within(ps, lo, hi) && Positive(ps) && Maximal(ps)
            && Linear(ps)
  {
    CoalesceShape(m.pieces, lo, hi, limit);
    CoalesceMeaning(m.pieces, 0);
  }

  /** Ascending maximal lists are determined by the map they denote: `mapping` returns
      the only such list for its `_mapping`. */
  lemma {:induction false} MaximalIsCanonical(ps: seq<Piece>, qs: seq<Piece>)
    requires Ascending(ps) && Positive(ps) && Linear(ps) && Maximal(ps)
    requires Ascending(qs) && Positive(qs) && Linear(qs) && Maximal(qs)
    requires forall a :: Lookup(ps, a) == Lookup(qs, a)
    ensures ps == qs
    decreases |ps|
  {
    if ps == [] || qs == [] {
      if ps != [] { FirstIsMapped(ps); }
      if qs != [] { FirstIsMapped(qs); }
    } else {
      FirstNotEarlier(ps, qs);
      FirstNotEarlier(qs, ps);
      FirstNotShorter(ps, qs);
      FirstNotShorter(qs, ps);
      assert ps[0] == qs[0] by {
        assert Lookup(ps, ps[0].offset) == Lookup(qs, ps[0].offset);
      }
      forall a ensures Lookup(ps[1..], a) == Lookup(qs[1..], a) {
        assert Lookup(ps, a) == Lookup(qs, a);
        if ps[0].Contains(a) {
          LookupNone(ps[1..], a);
          LookupNone(qs[1..], a);
        }
      }
      MaximalIsCanonical(ps[1..], qs[1..]);
      assert ps == [ps[0]] + ps[1..] && qs == [qs[0]] + qs[1..];
    }
  }

  /** What is yielded when the pieces of `_mapping` end with or without an exception: `cs` is the
      maximal list for them, and an exception loses its last run. */
  lemma {:induction false} YieldedBeforeException(m: Mapping, lo: int, hi: int, limit: nat, cs: seq<Piece>)
    requires Chunks(m.pieces, lo, hi, limit) && Linear(m.pieces)
    requires Ascending(cs) && Positive(cs) && Linear(cs) && Maximal(cs)
    requires forall a :: Lookup(cs, a) == Lookup(m.pieces, a)
    ensures CoalesceMapping(m).fault == m.fault
    ensures CoalesceMapping(m).pieces == if m.fault == None || cs == [] then cs else cs[..|cs| - 1]
  {
    CoalesceShape(m.pieces, lo, hi, limit);
    CoalesceMeaning(m.pieces, 0);
    forall a ensures Lookup(Coalesce(m.pieces), a) == Lookup(cs, a) {
      CoalesceMeaning(m.pieces, a);
    }
    MaximalIsCanonical(Coalesce(m.pieces), cs);
  }

  lemma {:induction false} FirstIsMapped(ps: seq<Piece>)
    requires ps != [] && Positive(ps)
    ensures Lookup(ps, ps[0].offset).Some?
  {
    assert ps[0].Contains(ps[0].offset);
  }

  lemma {:induction false} FirstNotEarlier(ps: seq<Piece>, qs: seq<Piece>)
    requires ps != [] && qs != [] && Ascending(ps) && Positive(ps) && Positive(qs)
    requires forall a :: Lookup(ps, a) == Lookup(qs, a)
    ensures ps[0].offset <= qs[0].offset
  {
    assert Lookup(ps, qs[0].offset) == Lookup(qs, qs[0].offset);
    var i := LookupSome(ps, qs[0].offset);
  }

  lemma {:induction false} FirstNotShorter(ps: seq<Piece>, qs: seq<Piece>)
    requires ps != [] && qs != [] && ps[0].offset == qs[0].offset
    requires Ascending(ps) && Positive(ps) && Linear(ps) && Maximal(ps) && Positive(qs) && Linear(qs)
    requires forall a :: Lookup(ps, a) == Lookup(qs, a)
    ensures ps[0].length >= qs[0].length
  {
    var p, q := ps[0], qs[0];
    if p.length < q.length {
      assert Lookup(ps, p.offset) == Lookup(qs, p.offset);
      assert Lookup(ps, p.End()) == Lookup(qs, p.End()) == Some(Place(q.layer, q.mappedOffset + p.length));
      var i := LookupSome(ps, p.End());
      assert i > 0 && ps[0].End() <= ps[i].offset;
      assert Continues(ps[0], ps[1]);
    }
  }
}
