/** Reading and writing through the pieces of a mapping whose lower layer is a
    buffer: the methods of the linearly mapped layers. */
module LinearLayer {
  import opened Bits
  import opened Memory
  import opened Pieces

  /** The byte a mapping shows at `a`: the byte below, or zero where nothing is mapped. */
  function ByteAt(ps: seq<Piece>, mem: seq<byte>, a: int): byte {
    var p := Lookup(ps, a);
    if p.Some? && p.value.address < |mem| then mem[p.value.address] else 0
  }

  /** The `n` bytes a mapping shows from `offset` on. */
  function Image(ps: seq<Piece>, mem: seq<byte>, offset: nat, n: nat): (s: seq<byte>)
    ensures |s| == n
    ensures forall k :: 0 <= k < n ==> s[k] == ByteAt(ps, mem, offset + k)
  {
    seq<byte>(n, k => ByteAt(ps, mem, offset + k))
  }

  /** The bytes below every non-empty piece of the first `n` can be read. */
  predicate ReadableUpTo(ps: seq<Piece>, n: nat, mem: seq<byte>)
    requires n <= |ps|
  {
    forall i :: 0 <= i < n && ps[i].mappedLength > 0 ==> Readable(mem, ps[i].mappedOffset, ps[i].mappedLength)
  }

  predicate AllReadable(ps: seq<Piece>, mem: seq<byte>) {
    ReadableUpTo(ps, |ps|, mem)
  }

  /** `output` is what the mapping shows from `offset` to `current`. */
  ghost predicate Shows(output: seq<byte>, ps: seq<Piece>, mem: seq<byte>, offset: nat, current: nat) {
    offset <= current && output == Image(ps, mem, offset, current - offset)
  }

  lemma {:induction false} ShowGap(output: seq<byte>, ps: seq<Piece>, mem: seq<byte>, i: nat, offset: nat,
                                   current: nat, next: nat)
    requires Ascending(ps) && i <= |ps| && current == Reached(ps, i, offset) && offset <= current <= next
    requires forall j :: i <= j < |ps| ==> next <= ps[j].offset
    requires Shows(output, ps, mem, offset, current)
    ensures Shows(output + Zeros(next - current), ps, mem, offset, next)
  {
    forall a: nat | current <= a < next ensures ByteAt(ps, mem, a) == 0 {
      GapLookup(ps, i, offset, next, a);
    }
  }

  lemma {:induction false} ShowPiece(output: seq<byte>, ps: seq<Piece>, mem: seq<byte>, i: nat, offset: nat)
    requires Ascending(ps) && i < |ps| && ps[i].mappedOffset + ps[i].length <= |mem|
    requires Shows(output, ps, mem, offset, ps[i].offset)
    ensures Shows(output + mem[ps[i].mappedOffset..ps[i].mappedOffset + ps[i].length], ps, mem, offset, ps[i].End())
  {
    var p := ps[i];
    forall a | p.Contains(a) ensures ByteAt(ps, mem, a) == mem[p.mappedOffset + (a - p.offset)] {
      LookupAt(ps, i, a);
    }
  }

  /** A read stops at piece `n`, or behind the last one: at a gap, with the first address of the
      gap; at bytes the buffer does not hold, with the exception of the buffer; or with the exception
      of the mapping. The pieces before it are read. */
  ghost predicate FailsAt(m: Mapping, mem: seq<byte>, offset: nat, pad: bool, n: nat, error: Error) {
    && n <= |m.pieces| && NoFailureUpTo(m.pieces, n, mem, offset, pad)
    && if n == |m.pieces| then m.fault == Some(error)
       else if !pad && !Follows(m.pieces, n, offset) then error == InvalidAddress(Reached(m.pieces, n, offset))
       else PieceFails(m.pieces[n], mem, error)
  }

  predicate NoFailureUpTo(ps: seq<Piece>, n: nat, mem: seq<byte>, offset: nat, pad: bool)
    requires n <= |ps|
  {
    ReadableUpTo(ps, n, mem) && (pad || ContiguousUpTo(ps, n, offset))
  }

  lemma {:induction false} NoFailureStep(ps: seq<Piece>, n: nat, mem: seq<byte>, offset: nat, pad: bool)
    requires n < |ps| && NoFailureUpTo(ps, n, mem, offset, pad) && (pad || Follows(ps, n, offset))
    requires ps[n].mappedLength > 0 ==> Readable(mem, ps[n].mappedOffset, ps[n].mappedLength)
    ensures NoFailureUpTo(ps, n + 1, mem, offset, pad)
  {
  }

  /** Where nothing else is wrong a read fails with the exception of the mapping. */
  lemma {:induction false} FailsWithFault(m: Mapping, mem: seq<byte>, offset: nat, pad: bool, error: Error)
    requires exists n :: FailsAt(m, mem, offset, pad, n, error)
    requires (pad || Contiguous(m.pieces, offset)) && AllReadable(m.pieces, mem)
    ensures m.fault == Some(error)
  {
    var n :| FailsAt(m, mem, offset, pad, n, error);
    assert forall i :: 0 <= i < |m.pieces| ==> pad || Follows(m.pieces, i, offset);
  }

  ghost predicate PieceFails(p: Piece, mem: seq<byte>, error: Error) {
    && p.mappedLength > 0 && !Readable(mem, p.mappedOffset, p.mappedLength)
    && exists x: nat :: error == InvalidAddress(x) && FirstOutside(|mem|, p.mappedOffset, p.mappedLength, x)
  }

  /** One turn of the loop of `read`, once the gap before the piece is filled. */
  method ReadPiece(base: BufferDataLayer, ps: seq<Piece>, i: nat, ghost offset: nat, output: seq<byte>)
    returns (r: Result<seq<byte>>)
    requires Ascending(ps) && Linear(ps) && i < |ps| && Shows(output, ps, base.buffer, offset, ps[i].offset)
    ensures r.Ok? <==> (ps[i].mappedLength > 0 ==> Readable(base.buffer, ps[i].mappedOffset, ps[i].mappedLength))
    ensures r.Ok? ==> Shows(r.value, ps, base.buffer, offset, ps[i].End())
    ensures r.Err? ==> PieceFails(ps[i], base.buffer, r.error)
  {
    var p := ps[i];
    if p.mappedLength == 0 {
      return Ok(output);
    }
    var data := base.Read(p.mappedOffset, p.mappedLength);
    if data.Err? {
      return data;
    }
    ShowPiece(output, ps, base.buffer, i, offset);
    return Ok(output + data.value);
  }

  /** `read`: exactly `length` bytes, each the mapped byte or zero. Without padding a
      gap before a piece is an error; the overlap exception is never raised. */
  method Read(base: BufferDataLayer, m: Mapping, offset: nat, length: nat, pad: bool)
    returns (r: Result<seq<byte>>)
    requires Ascending(m.pieces) && Within(m.pieces, offset, offset + length) && Linear(m.pieces)
    ensures r.Ok? <==> m.fault == None && (pad || Contiguous(m.pieces, offset)) && AllReadable(m.pieces, base.buffer)
    ensures r.Ok? ==> r.value == Image(m.pieces, base.buffer, offset, length)
    ensures r.Err? ==> exists n :: FailsAt(m, base.buffer, offset, pad, n, r.error)
  {
    var current: nat, output: seq<byte> := offset, [];
    var ps := m.pieces;
    var i := 0;
    while i < |ps|
      invariant i <= |ps| && current == Reached(ps, i, offset) && offset <= current <= offset + length
      invariant NoFailureUpTo(ps, i, base.buffer, offset, pad)
      invariant Shows(output, ps, base.buffer, offset, current)
    {
      var p := ps[i];
      NextPieces(ps, i, offset, current);
      if !pad && p.offset > current {
        assert FailsAt(m, base.buffer, offset, pad, i, InvalidAddress(current));
        return Err(InvalidAddress(current));
      } else if p.offset > current {
        ShowGap(output, ps, base.buffer, i, offset, current, p.offset);
        output := output + Zeros(p.offset - current);
        current := p.offset;
      } else if p.offset < current {
        assert false;
      }
      var more := ReadPiece(base, ps, i, offset, output);
      if more.Err? {
        assert FailsAt(m, base.buffer, offset, pad, i, more.error);
        return more;
      }
      NoFailureStep(ps, i, base.buffer, offset, pad);
      output := more.value;
      current := current + p.mappedLength;
      i := i + 1;
    }
    if m.fault.Some? {
      assert FailsAt(m, base.buffer, offset, pad, |ps|, m.fault.value);
      return Err(m.fault.value);
    }
    ShowGap(output, ps, base.buffer, |ps|, offset, current, offset + length);
    return Ok(output + Zeros(length - |output|));
  }

  /** `translate`: the place of the one piece that an empty request gives. */
  method TranslateThrough(m: Mapping, offset: nat, ignoreErrors: bool) returns (r: Result<Option<Place>>)
    ensures m.fault == None && |m.pieces| == 1 && m.pieces[0].offset == offset ==>
              r == Ok(Some(Place(m.pieces[0].layer, m.pieces[0].mappedOffset)))
    ensures m.fault == None && |m.pieces| == 1 && m.pieces[0].offset != offset ==> r == Err(Malformed)
    ensures m.fault == None && |m.pieces| != 1 ==> r == if ignoreErrors then Ok(None) else Err(InvalidAddress(offset))
    ensures m.fault.Some? ==> r == Err(m.fault.value)
  {
    if m.fault.Some? {
      return Err(m.fault.value);
    }
    if |m.pieces| == 1 {
      var p := m.pieces[0];
      if p.offset != offset {
        return Err(Malformed);
      }
      return Ok(Some(Place(p.layer, p.mappedOffset)));
    } else if ignoreErrors {
      return Ok(None);
    }
    return Err(InvalidAddress(offset));
  }

  // ---- writing ----

  /** The part of `value` that falls on a piece, when `value` starts at `offset`. */
  function Part(p: Piece, offset: nat, value: seq<byte>): (s: seq<byte>)
    requires offset <= p.offset && p.End() <= offset + |value|
    ensures |s| == p.length
  {
    value[p.offset - offset..p.End() - offset]
  }

  /** The buffer after the parts of `value` under the first `n` pieces are stored there. */
  function Stored(mem: seq<byte>, ps: seq<Piece>, n: nat, offset: nat, value: seq<byte>): seq<byte>
    requires Within(ps, offset, offset + |value|) && n <= |ps|
  {
    if n == 0 then mem
    else Overwrite(Stored(mem, ps, n - 1, offset, value), ps[n - 1].mappedOffset, Part(ps[n - 1], offset, value))
  }

  /** No two pieces name a common byte of the layer below. */
  predicate DisjointBelow(ps: seq<Piece>) {
    forall i, j :: 0 <= i < j < |ps| ==>
      || ps[i].mappedOffset + ps[i].length <= ps[j].mappedOffset
      || ps[j].mappedOffset + ps[j].length <= ps[i].mappedOffset
  }

  lemma {:induction false} PartOfRest(p: Piece, offset: nat, value: seq<byte>)
    requires offset <= p.offset && p.End() <= offset + |value|
    ensures var rest := value[p.offset - offset..];
            rest[..p.length] == Part(p, offset, value) && rest[p.length..] == value[p.End() - offset..]
  {
    var from := p.offset - offset;
    var rest := value[from..];
    assert |rest[p.length..]| == |value[p.End() - offset..]|;
    assert forall k :: 0 <= k < |rest[p.length..]| ==>
        rest[p.length..][k] == rest[p.length + k] == value[from + p.length + k];
  }

  /** `n` is how many pieces follow `offset` without a gap. */
  predicate StopsAt(ps: seq<Piece>, n: nat, offset: nat) {
    && n <= |ps| && ContiguousUpTo(ps, n, offset)
    && (n < |ps| ==> !Follows(ps, n, offset))
  }

  /** `write`: the chunks of `value` go to the pieces in order; a gap stops the write
      there, and an exception of the mapping comes after the pieces it yielded. */
  method Write(base: BufferDataLayer, m: Mapping, offset: nat, value: seq<byte>)
    returns (fault: Option<Error>, ghost done: nat)
    requires Ascending(m.pieces) && Within(m.pieces, offset, offset + |value|) && Linear(m.pieces)
    modifies base
    ensures StopsAt(m.pieces, done, offset)
    ensures base.buffer == Stored(old(base.buffer), m.pieces, done, offset, value)
    ensures fault == if done == |m.pieces| then m.fault
                     else Some(InvalidAddress(Reached(m.pieces, done, offset)))
  {
    var current: nat, rest := offset, value;
    var ps := m.pieces;
    var i := 0;
    while i < |ps|
      invariant i <= |ps| && current == Reached(ps, i, offset) && offset <= current <= offset + |value|
      invariant ContiguousUpTo(ps, i, offset)
      invariant rest == value[current - offset..]
      invariant base.buffer == Stored(old(base.buffer), ps, i, offset, value)
    {
      var p := ps[i];
      NextPieces(ps, i, offset, current);
      if p.offset > current {
        return Some(InvalidAddress(current)), i;
      } else if p.offset < current {
        assert false;
      }
      PartOfRest(p, offset, value);
      base.Write(p.mappedOffset, rest[..p.length]);
      rest := rest[p.length..];
      current := current + p.length;
      i := i + 1;
    }
    return m.fault, i;
  }

  lemma OverwriteInside(mem: seq<byte>, at: nat, data: seq<byte>)
    requires at + |data| <= |mem|
    ensures |Overwrite(mem, at, data)| == |mem|
    ensures forall x :: 0 <= x < |mem| ==>
              Overwrite(mem, at, data)[x] == if at <= x < at + |data| then data[x - at] else mem[x]
  {
  }

  predicate NamedBelow(p: Piece, x: int) {
    p.mappedOffset <= x < p.mappedOffset + p.length
  }

  /** A write inside the buffer keeps its length and changes only mapped bytes. */
  lemma {:induction false} StoredFrame(mem: seq<byte>, ps: seq<Piece>, n: nat, offset: nat, value: seq<byte>)
    requires Within(ps, offset, offset + |value|) && Linear(ps) && PiecesInBounds(ps, |mem|) && n <= |ps|
    ensures |Stored(mem, ps, n, offset, value)| == |mem|
    ensures forall x :: 0 <= x < |mem| && (forall i :: 0 <= i < n ==> !NamedBelow(ps[i], x)) ==>
              Stored(mem, ps, n, offset, value)[x] == mem[x]
  {
    if n > 0 {
      StoredFrame(mem, ps, n - 1, offset, value);
      var p := ps[n - 1];
      OverwriteInside(Stored(mem, ps, n - 1, offset, value), p.mappedOffset, Part(p, offset, value));
    }
  }

  /** Every mapped address holds the byte written for it. */
  lemma {:induction false} StoredByte(mem: seq<byte>, ps: seq<Piece>, n: nat, offset: nat, value: seq<byte>, i: nat,
                                      a: nat, x: nat)
    requires Within(ps, offset, offset + |value|) && Linear(ps) && PiecesInBounds(ps, |mem|) && DisjointBelow(ps)
    requires i < n <= |ps| && ps[i].Contains(a) && x == ps[i].mappedOffset + (a - ps[i].offset)
    ensures x < |Stored(mem, ps, n, offset, value)| == |mem|
    ensures Stored(mem, ps, n, offset, value)[x] == value[a - offset]
  {
    var p, before := ps[n - 1], Stored(mem, ps, n - 1, offset, value);
    StoredFrame(mem, ps, n - 1, offset, value);
    OverwriteInside(before, p.mappedOffset, Part(p, offset, value));
    if i < n - 1 {
      StoredByte(mem, ps, n - 1, offset, value, i, a, x);
      assert !NamedBelow(p, x);
    }
  }

  lemma {:induction false} WrittenByte(mem: seq<byte>, ps: seq<Piece>, offset: nat, value: seq<byte>, a: nat, k: nat)
    requires Within(ps, offset, offset + |value|) && Linear(ps) && PiecesInBounds(ps, |mem|) && DisjointBelow(ps)
    requires a == offset + k && k < |value| && Lookup(ps, a).Some?
    ensures ByteAt(ps, Stored(mem, ps, |ps|, offset, value), a) == value[k]
  {
    var i := LookupSome(ps, a);
    StoredByte(mem, ps, |ps|, offset, value, i, a, ps[i].mappedOffset + (a - ps[i].offset));
  }

  /** What a write through a mapping stores, a read through the same mapping returns. */
  lemma {:induction false} WriteReadRoundTrip(mem: seq<byte>, ps: seq<Piece>, offset: nat, value: seq<byte>)
    requires Ascending(ps) && Within(ps, offset, offset + |value|) && Linear(ps)
    requires PiecesInBounds(ps, |mem|) && DisjointBelow(ps)
    requires forall a :: offset <= a < offset + |value| ==> Lookup(ps, a).Some?
    ensures Image(ps, Stored(mem, ps, |ps|, offset, value), offset, |value|) == value
  {
    var mem' := Stored(mem, ps, |ps|, offset, value);
    forall k | 0 <= k < |value| ensures ByteAt(ps, mem', offset + k) == value[k] {
      assert Lookup(ps, offset + k).Some?;
      WrittenByte(mem, ps, offset, value, offset + k, k);
    }
  }
}
