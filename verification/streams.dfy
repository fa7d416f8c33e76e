/** The memory-backed streams that every reader and writer of the repository sits on. */
module Streams {
  import opened Bytes

  /** Reads a fixed buffer through a moving offset. */
  class BufferReadStream {
    const buffer: seq<byte>
    var offset: nat
    var lastRead: nat

    ghost predicate Valid()
      reads this
    {
      offset <= |buffer|
    }

    /** The bytes not yet consumed. */
    ghost function Rest(): (r: seq<byte>)
      reads this
      requires Valid()
    {
      buffer[offset..]
    }

    constructor (buffer: seq<byte>)
      ensures Valid() && Rest() == buffer && this.buffer == buffer
    {
      this.buffer := buffer;
      offset := 0;
      lastRead := 0;
    }

    function Remaining(): (n: nat)
      reads this
      requires Valid()
      ensures n == |Rest()|
    {
      |buffer| - offset
    }

    method FastIgnore(toIgnore: nat)
      requires Valid() && toIgnore <= Remaining()
      modifies this
      ensures Valid() && lastRead == toIgnore && offset == old(offset) + toIgnore
      ensures Rest() == old(Rest())[toIgnore..]
    {
      lastRead := toIgnore;
      offset := offset + lastRead;
    }

    method Ignore(amount: nat)
      requires Valid()
      modifies this
      ensures Valid() && lastRead == Min(amount, |old(Rest())|)
      ensures Rest() == old(Rest())[lastRead..]
    {
      FastIgnore(Min(amount, |buffer| - offset));
    }

    /** Copies as much of the request as is left; `lastRead` is what gcount() reports. */
    method Read(size: nat) returns (data: seq<byte>)
      requires Valid()
      modifies this
      ensures Valid() && lastRead == |data| == Min(size, |old(Rest())|)
      ensures old(Rest()) == data + Rest()
    {
      lastRead := Min(size, |buffer| - offset);
      data := buffer[offset..offset + lastRead];
      offset := offset + lastRead;
    }

    /** A stream's ReadScalar: the generic one reads what is left, then finds it was not enough. */
    method ReadScalar(size: nat) returns (r: Option<nat>)
      requires Valid()
      modifies this
      ensures Valid()
      ensures match ReadLE(old(Rest()), size)
              case Got(v, rest) => r == Some(v) && Rest() == rest
              case _ => r == None && Rest() == []
    {
      var data := Read(size);
      if lastRead != size {
        return None;
      }
      assert old(Rest())[..size] == data && old(Rest())[size..] == Rest();
      r := Some(FromLE(data));
    }

    /** The buffer specialisation of ReadScalar: a short input is left alone. */
    method FastReadScalar(size: nat) returns (r: Option<nat>)
      requires Valid()
      modifies this
      ensures Valid()
      ensures match ReadLE(old(Rest()), size)
              case Got(v, rest) => r == Some(v) && Rest() == rest
              case _ => r == None && Rest() == old(Rest())
    {
      if |buffer| - offset < size {
        return None;
      }
      var position := buffer[offset..offset + size];
      assert old(Rest())[..size] == position;
      FastIgnore(size);
      r := Some(FromLE(position));
    }
  }

  /** An output that grows without bound. */
  class OStream {
    var data: seq<byte>

    constructor ()
      ensures data == []
    {
      data := [];
    }

    method Write(b: seq<byte>)
      modifies this
      ensures data == old(data) + b
    {
      data := data + b;
    }
  }

  /** Writes into a caller's fixed buffer. */
  class BufferWriteStream {
    const buffer: array<byte>
    var offset: nat

    ghost predicate Valid()
      reads this
    {
      offset <= buffer.Length
    }

    ghost function Written(): seq<byte>
      reads this, buffer
      requires Valid()
    {
      buffer[..offset]
    }

    constructor (buffer: array<byte>)
      ensures Valid() && offset == 0 && this.buffer == buffer
    {
      this.buffer := buffer;
      offset := 0;
    }

    /** A stream over the part of the buffer from `offset` on. */
    constructor At(buffer: array<byte>, offset: nat)
      requires offset <= buffer.Length
      ensures Valid() && this.offset == offset && this.buffer == buffer
    {
      this.buffer := buffer;
      this.offset := offset;
    }

    method Write(b: seq<byte>)
      requires Valid() && offset + |b| <= buffer.Length
      modifies this, buffer
      ensures Valid() && Written() == old(Written()) + b
      ensures buffer[offset..] == old(buffer[offset + |b|..])
    {
      forall i | 0 <= i < |b| {
        buffer[offset + i] := b[i];
      }
      offset := offset + |b|;
    }
  }
}
