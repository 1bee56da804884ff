/** What a translation layer's mapping means. A mapping is a list of pieces; its
    denotation says, for each address, which byte of which lower layer it names. */
module Pieces {
  import opened Memory

  datatype Piece = Piece(offset: nat, length: nat, mappedOffset: nat, mappedLength: nat, layer: string) {
    predicate Contains(a: int) {
      offset <= a < offset + length
    }

    function End(): nat {
      offset + length
    }
  }

  /** A place in a lower layer. */
  datatype Place = Place(layer: string, address: nat)

  /** The pieces a generator yields before it finishes or raises. */
  datatype Mapping = Mapping(pieces: seq<Piece>, fault: Option<Error>)

  /** Where address `a` goes: the first piece that contains it decides. */
  function Lookup(ps: seq<Piece>, a: int): Option<Place> {
    if ps == [] then None
    else if ps[0].Contains(a) then Some(Place(ps[0].layer, ps[0].mappedOffset + (a - ps[0].offset)))
    else Lookup(ps[1..], a)
  }

  function TotalLength(ps: seq<Piece>): nat {
    if ps == [] then 0 else ps[0].length + TotalLength(ps[1..])
  }

  /** Pieces in address order that share no address. */
  predicate Ascending(ps: seq<Piece>) {
    forall i, j :: 0 <= i < j < |ps| ==> ps[i].End() <= ps[j].offset
  }

  /** Every piece lies in `[lo, hi]` and maps byte for byte. */
  predicate Within(ps: seq<Piece>, lo: int, hi: int) {
    forall i :: 0 <= i < |ps| ==> lo <= ps[i].offset && ps[i].End() <= hi
  }

  predicate Linear(ps: seq<Piece>) {
    forall i :: 0 <= i < |ps| ==> ps[i].mappedLength == ps[i].length
  }

  predicate Positive(ps: seq<Piece>) {
    forall i :: 0 <= i < |ps| ==> ps[i].length > 0
  }

  /** Each piece names bytes of a buffer of `limit` bytes. */
  predicate PiecesInBounds(ps: seq<Piece>, limit: nat) {
    forall i :: 0 <= i < |ps| ==> ps[i].mappedOffset + ps[i].mappedLength <= limit
  }

  lemma {:induction false} LookupNone(ps: seq<Piece>, a: int)
    requires forall i :: 0 <= i < |ps| ==> !ps[i].Contains(a)
    ensures Lookup(ps, a) == None
  {
    if ps != [] {
      assert forall i :: 0 <= i < |ps[1..]| ==> ps[1..][i] == ps[i + 1];
      LookupNone(ps[1..], a);
    }
  }

  lemma {:induction false} LookupSome(ps: seq<Piece>, a: int) returns (i: nat)
    requires Lookup(ps, a).Some?
    ensures i < |ps| && ps[i].Contains(a)
    ensures Lookup(ps, a) == Some(Place(ps[i].layer, ps[i].mappedOffset + (a - ps[i].offset)))
  {
    if ps[0].Contains(a) {
      i := 0;
    } else {
      var k := LookupSome(ps[1..], a);
      i := k + 1;
    }
  }

  /** In an ascending list the piece holding `a` is the only one that can. */
  lemma {:induction false} LookupAt(ps: seq<Piece>, i: nat, a: int)
    requires Ascending(ps) && i < |ps| && ps[i].Contains(a)
    ensures Lookup(ps, a) == Some(Place(ps[i].layer, ps[i].mappedOffset + (a - ps[i].offset)))
  {
    if i == 0 {
    } else {
      assert ps[0].End() <= ps[i].offset;
      LookupAt(ps[1..], i - 1, a);
    }
  }

  /** Putting a piece in front of an ascending list that starts after it. */
  lemma {:induction false} ConsPiece(p: Piece, ps: seq<Piece>, hi: int)
    requires Ascending(ps) && Within(ps, p.End(), hi) && p.End() <= hi
    ensures Ascending([p] + ps) && Within([p] + ps, p.offset, hi)
    ensures forall a :: Lookup([p] + ps, a) ==
              if p.Contains(a) then Some(Place(p.layer, p.mappedOffset + (a - p.offset))) else Lookup(ps, a)
  {
    assert ([p] + ps)[1..] == ps;
  }

  lemma {:induction false} LookupConcat(ps: seq<Piece>, qs: seq<Piece>, a: int)
    ensures Lookup(ps + qs, a) == if Lookup(ps, a).Some? then Lookup(ps, a) else Lookup(qs, a)
  {
    if ps == [] {
      assert ps + qs == qs;
    } else {
      assert (ps + qs)[1..] == ps[1..] + qs;
      LookupConcat(ps[1..], qs, a);
    }
  }

  lemma {:induction false} TotalLengthConcat(ps: seq<Piece>, qs: seq<Piece>)
    ensures TotalLength(ps + qs) == TotalLength(ps) + TotalLength(qs)
  {
    if ps == [] {
      assert ps + qs == qs;
    } else {
      assert (ps + qs)[1..] == ps[1..] + qs;
      TotalLengthConcat(ps[1..], qs);
    }
  }

  // ---- reading pieces in order ----

  /** Where a reader stands after the first `n` pieces. */
  function Reached(ps: seq<Piece>, n: nat, offset: nat): nat
    requires n <= |ps|
  {
    if n == 0 then offset else ps[n - 1].End()
  }

  /** Piece `i` starts where a reader stands after the pieces before it. */
  predicate Follows(ps: seq<Piece>, i: nat, offset: nat)
    requires i < |ps|
  {
    ps[i].offset == Reached(ps, i, offset)
  }

  /** The first `n` pieces start at `offset` and leave no gap between them. */
  predicate ContiguousUpTo(ps: seq<Piece>, n: nat, offset: nat)
    requires n <= |ps|
  {
    forall i :: 0 <= i < n ==> Follows(ps, i, offset)
  }

  predicate Contiguous(ps: seq<Piece>, offset: nat) {
    ContiguousUpTo(ps, |ps|, offset)
  }

  lemma {:induction false} NextPieces(ps: seq<Piece>, i: nat, offset: nat, current: nat)
    requires Ascending(ps) && i <= |ps| && current == Reached(ps, i, offset) && i < |ps|
               && (i == 0 ==> offset <= ps[0].offset)
    ensures current <= ps[i].offset
    ensures forall j :: i <= j < |ps| ==> ps[i].offset <= ps[j].offset
  {
    if i > 0 { assert ps[i - 1].End() <= ps[i].offset; }
    forall j | i <= j < |ps| ensures ps[i].offset <= ps[j].offset {
      if i < j { assert ps[i].End() <= ps[j].offset; }
    }
  }

  /** Nothing is mapped between the end of one piece and the start of the next. */
  lemma {:induction false} GapLookup(ps: seq<Piece>, i: nat, offset: nat, next: nat, a: nat)
    requires Ascending(ps) && i <= |ps| && Reached(ps, i, offset) <= a < next
    requires forall j :: i <= j < |ps| ==> next <= ps[j].offset
    ensures Lookup(ps, a) == None
  {
    forall j | 0 <= j < |ps| ensures !ps[j].Contains(a) {
      if j < i - 1 { assert ps[j].End() <= ps[i - 1].offset; }
    }
    LookupNone(ps, a);
  }

  /** Pieces that leave no address of a request out follow each other without a gap. */
  lemma {:induction false} CoveringIsContiguous(ps: seq<Piece>, offset: nat, end: nat)
    requires Ascending(ps) && Within(ps, offset, end)
    requires forall a :: offset <= a < end ==> Lookup(ps, a).Some?
    ensures Contiguous(ps, offset)
  {
    forall i | 0 <= i < |ps| ensures Follows(ps, i, offset) {
      var c := Reached(ps, i, offset);
      NextPieces(ps, i, offset, c);
      if c < ps[i].offset {
        var j := LookupSome(ps, c);
        assert false;
      }
    }
  }
}
