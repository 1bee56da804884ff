/** The bottom of the layer stack: a layer backed by a buffer of bytes, and the
    outcomes a layer operation can have. */
module Memory {
  import opened Bits

  datatype Option<+T> = None | Some(value: T)

  /** The exceptions the layers raise, with the fields later code inspects. */
  datatype Error =
    | InvalidAddress(address: int)
    | PagedInvalidAddress(invalidBits: nat, entry: nat)
    | LengthMismatch
    | Malformed

  datatype Result<+T> = Ok(value: T) | Err(error: Error)

  /** Whether `length` bytes from `offset` lie in a buffer of `size` bytes; both ends
      are tested, so an empty range is valid only after some byte of the buffer. */
  predicate InBounds(size: nat, offset: int, length: int) {
    0 <= offset < size && 0 <= offset + length - 1 < size
  }

  predicate Inside(size: nat, x: int) {
    0 <= x < size
  }

  /** A range with bytes is valid exactly if all of them lie in the buffer; an empty one exactly if it
      starts behind some byte and not behind the last. */
  lemma {:induction false} InBoundsIff(size: nat, offset: int, length: int)
    ensures length > 0 ==>
              (InBounds(size, offset, length) <==> forall x :: offset <= x < offset + length ==> Inside(size, x))
    ensures length == 0 ==> (InBounds(size, offset, length) <==> 0 < offset < size)
    ensures length < 0 ==> (InBounds(size, offset, length) <==> -length < offset < size)
  {
    if length > 0 && forall x :: offset <= x < offset + length ==> Inside(size, x) {
      assert Inside(size, offset) && Inside(size, offset + length - 1);
    }
  }

  predicate Readable(mem: seq<byte>, offset: int, length: int) {
    InBounds(|mem|, offset, length)
  }

  /** The address the exception of a read names: the first one outside a buffer of `size` bytes. A
      range that starts at address 0 is reported there, also where the buffer holds that byte. */
  ghost predicate FirstOutside(size: nat, address: nat, length: int, x: nat) {
    x == (if address == 0 then 0 else Max(address, size)) && (length > 0 ==> x < address + length)
  }

  /** The buffer after `data` is written at `address`, with slice bounds clamped. */
  function Overwrite(mem: seq<byte>, address: nat, data: seq<byte>): seq<byte> {
    mem[..Min(address, |mem|)] + data + mem[Min(address + |data|, |mem|)..]
  }

  class BufferDataLayer {
    var buffer: seq<byte>

    constructor (buffer: seq<byte>)
      ensures this.buffer == buffer
    {
      this.buffer := buffer;
    }

    function MaximumAddress(): int
      reads this
    {
      |buffer| - 1
    }

    predicate IsValid(offset: int, length: int)
      reads this
    {
      Readable(buffer, offset, length)
    }

    /** `read`. A length below zero reads nothing. */
    method Read(address: nat, length: int) returns (r: Result<seq<byte>>)
      ensures r.Ok? <==> Readable(buffer, address, length)
      ensures r.Ok? ==> r.value == buffer[address..address + Max(0, length)]
      ensures r.Err? ==> exists x: nat :: r.error == InvalidAddress(x) && FirstOutside(|buffer|, address, length, x)
    {
      if !IsValid(address, length) {
        var invalid := if 0 < address <= MaximumAddress() then MaximumAddress() + 1 else address;
        return Err(InvalidAddress(invalid));
      }
      return Ok(buffer[address..address + Max(0, length)]);
    }

    /** `write`: inside the buffer the length stays and only the bytes under the data change;
        data past the end makes the buffer longer, without a gap. */
    method Write(address: nat, data: seq<byte>)
      modifies this
      ensures var at := Min(address, |old(buffer)|);
              && |buffer| == Max(|old(buffer)|, at + |data|)
              && forall x :: 0 <= x < |buffer| ==>
                   buffer[x] == if at <= x < at + |data| then data[x - at] else old(buffer)[x]
      ensures buffer == Overwrite(old(buffer), address, data)
    {
      buffer := Overwrite(buffer, address, data);
    }
  }
}
