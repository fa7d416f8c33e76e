/** The variable-length unsigned integer of both formats, its signed zigzag form, and every loop that reads or
    writes one. */
module Varuint {
  import opened Bytes
  import opened Streams

  /** Seven bits a byte, least significant first, the high bit set on every byte but the last. */
  function Encode(v: nat): (b: seq<byte>)
    ensures |b| >= 1
    ensures v < 128 ==> b == [v]
  {
    if v < 128 then [v] else [128 + v % 128] + Encode(v / 128)
  }

  /** The number a run of continuation bytes spells, with no width limit. */
  function Raw(b: seq<byte>): (r: Read<nat>)
    ensures !r.Abort? && (r.Got? ==> |r.rest| < |b|)
  {
    if b == [] then Short
    else if b[0] < 128 then Got(b[0], b[1..])
    else
      var (v, rest) :- Raw(b[1..]);
      Got(b[0] - 128 + 128 * v, rest)
  }

  /** telemetry::ReadStream::ReadVaruint: the bits above 64 are shifted out. */
  function Decode(b: seq<byte>): (r: Read<nat>)
    ensures !r.Abort? && (r.Got? ==> |r.rest| < |b| && r.value < TWO64)
  {
    var (v, rest) :- Raw(b);
    Got(Wrap64(v), rest)
  }

  /** Five continuation bytes in a row are more than multiplex accepts. */
  predicate TooLong(b: seq<byte>) {
    |b| >= 5 && forall i :: 0 <= i < 5 ==> b[i] >= 128
  }

  /** multiplex::ReadStream::ReadVaruint: at most five bytes, an over-long run reads as the largest uint32. */
  function Decode32(b: seq<byte>): (r: Read<nat>)
    ensures !r.Abort? && (r.Got? ==> |r.rest| < |b| && r.value < TWO32)
  {
    if TooLong(b) then Got(TWO32 - 1, b[5..])
    else
      var (v, rest) :- Raw(b);
      Got(Wrap32(v), rest)
  }

  function Pow128(k: nat): (p: nat)
    ensures p > 0
  {
    if k == 0 then 1 else 128 * Pow128(k - 1)
  }

  lemma {:induction false} RawAfterEncode(v: nat, rest: seq<byte>)
    ensures Raw(Encode(v) + rest) == Got(v, rest)
  {
    if v < 128 {
      assert ([v] + rest)[1..] == rest;
    } else {
      RawAfterEncode(v / 128, rest);
      assert (Encode(v) + rest)[1..] == Encode(v / 128) + rest;
    }
  }

  /** Reading undoes writing, whatever follows. */
  lemma DecodeAfterEncode(v: nat, rest: seq<byte>)
    requires v < TWO64
    ensures Decode(Encode(v) + rest) == Got(v, rest)
  {
    RawAfterEncode(v, rest);
  }

  lemma Decode32AfterEncode(v: nat, rest: seq<byte>)
    requires v < TWO32
    ensures Decode32(Encode(v) + rest) == Got(v, rest)
    ensures |Encode(v)| <= 5
  {
    RawAfterEncode(v, rest);
    SizeBound(v, 5) by { assert Pow128(5) == 128 * 128 * 128 * 128 * 128; }
    LastByteEnds(v);
    var n := |Encode(v)|;
    assert (Encode(v) + rest)[n - 1] == Encode(v)[n - 1] < 128;
  }

  lemma {:induction false} LastByteEnds(v: nat)
    ensures Encode(v)[|Encode(v)| - 1] < 128
    ensures forall i :: 0 <= i < |Encode(v)| - 1 ==> Encode(v)[i] >= 128
  {
    if v >= 128 {
      LastByteEnds(v / 128);
    }
  }

  /** `k` bytes hold exactly the numbers below 128 to the `k`. */
  lemma {:induction false} SizeBound(v: nat, k: nat)
    requires k >= 1
    ensures |Encode(v)| <= k <==> v < Pow128(k)
  {
    if v < 128 {
      assert Pow128(k) >= 128 by { if k > 1 { assert Pow128(k) == 128 * Pow128(k - 1); } }
    } else if k == 1 {
    } else {
      SizeBound(v / 128, k - 1);
      assert Pow128(k) == 128 * Pow128(k - 1);
    }
  }

  /** Two different numbers never share an encoding, nor is one a prefix of the other. */
  lemma EncodeInjective(v: nat, w: nat, p: seq<byte>, q: seq<byte>)
    requires Encode(v) + p == Encode(w) + q
    ensures v == w && p == q
  {
    RawAfterEncode(v, p);
    RawAfterEncode(w, q);
  }

  /** Cutting an encoded number anywhere inside leaves a reader short. */
  lemma {:induction false} RawOfProperPrefix(v: nat, n: nat)
    requires n < |Encode(v)|
    ensures Raw(Encode(v)[..n]) == Short
  {
    if n > 0 && v >= 128 {
      RawOfProperPrefix(v / 128, n - 1);
      assert Encode(v)[..n][1..] == Encode(v / 128)[..n - 1];
    }
  }

  /** What follows a number does not matter to its reader, and a reader cut off inside it comes up short. */
  lemma {:induction false} RawOfPart(b: seq<byte>, n: nat, more: seq<byte>)
    requires Raw(b).Got? && n <= |b|
    ensures Raw(b + more) == Got(Raw(b).value, Raw(b).rest + more)
    ensures
      var size := |b| - |Raw(b).rest|;
      Raw(b[..n]) == if n < size then Short else Got(Raw(b).value, Raw(b).rest[..n - size])
    ensures Raw(b).rest == b[|b| - |Raw(b).rest|..]
  {
    assert (b + more)[1..] == b[1..] + more;
    if n > 0 {
      assert b[..n][1..] == b[1..][..n - 1];
    }
    if b[0] >= 128 {
      RawOfPart(b[1..], if n > 0 then n - 1 else 0, more);
    } else if n > 0 {
      assert b[..n][1..] == b[1..][..n - 1];
    }
  }

  lemma {:induction false} LongRunIsNoNumber(b: seq<byte>, k: nat)
    requires Raw(b).Got? && k < |b| - |Raw(b).rest|
    ensures k + 1 < |b| - |Raw(b).rest| <==> b[k] >= 128
  {
    if b[0] >= 128 && k > 0 {
      LongRunIsNoNumber(b[1..], k - 1);
    }
  }

  /** The same for multiplex, short of the number that an over-long run reads as. */
  lemma Decode32OfPart(b: seq<byte>, n: nat, more: seq<byte>)
    requires Decode32(b).Got? && !TooLong(b) && n <= |b|
    ensures Decode32(b + more) == Got(Decode32(b).value, Decode32(b).rest + more)
    ensures
      var size := |b| - |Decode32(b).rest|;
      Decode32(b[..n]) == if n < size then Short else Got(Decode32(b).value, Decode32(b).rest[..n - size])
    ensures Decode32(b).rest == b[|b| - |Decode32(b).rest|..]
  {
    RawOfPart(b, n, more);
    var size := |b| - |Raw(b).rest|;
    assert size <= 5 by {
      if size > 5 {
        forall k: nat | k < 5 ensures b[k] >= 128 {
          LongRunIsNoNumber(b, k);
        }
      }
    }
    LongRunIsNoNumber(b, size - 1);
    assert (b + more)[size - 1] == b[size - 1] < 128;
    assert n >= size ==> b[..n][size - 1] == b[size - 1];
  }

  /** Format::GetVaruintSize of the telemetry format. */
  method GetVaruintSize(v: nat) returns (result: nat)
    ensures result == |Encode(v)|
  {
    var value := v;
    result := 0;
    while true
      invariant result + |Encode(value)| == |Encode(v)|
      decreases value
    {
      result := result + 1;
      if value <= 0x7f {
        break;
      }
      value := value / 128;
    }
  }

  /** GetVaruintSize of the multiplex format, a differently shaped loop. */
  method GetVaruintSize32(v: nat) returns (result: nat)
    ensures result == |Encode(v)|
  {
    var value := v;
    var more := true;
    result := 0;
    while more
      invariant more ==> result + |Encode(value)| == |Encode(v)|
      invariant !more ==> result == |Encode(v)|
      decreases more, value
    {
      var next := value / 128;
      result := result + 1;
      more := next != 0;
      value := next;
    }
  }

  /** telemetry::WriteStream::WriteVaruintReal. */
  method WriteVaruint(ostr: OStream, v: nat)
    modifies ostr
    ensures ostr.data == old(ostr.data) + Encode(v)
  {
    var value := v;
    var again := true;
    while again
      invariant again ==> ostr.data + Encode(value) == old(ostr.data) + Encode(v)
      invariant !again ==> ostr.data == old(ostr.data) + Encode(v)
      decreases again, value
    {
      var word := value % 128;
      if value > 0x7f {
        word := word + 128;
      }
      ghost var before := ostr.data;
      ostr.Write([word]);
      assert before + Encode(value) == if value < 128 then ostr.data else ostr.data + Encode(value / 128);
      value := value / 128;
      again := value != 0;
    }
  }

  /** The buffer specialisation writes the same bytes through a raw position, then skips over them. */
  method FastWriteVaruint(ostr: BufferWriteStream, v: nat)
    requires ostr.Valid() && ostr.offset + |Encode(v)| <= ostr.buffer.Length
    modifies ostr, ostr.buffer
    ensures ostr.Valid() && ostr.Written() == old(ostr.Written()) + Encode(v)
    ensures ostr.buffer[ostr.offset..] == old(ostr.buffer[ostr.offset + |Encode(v)|..])
  {
    var value := v;
    var position := ostr.offset;
    var again := true;
    while again
      invariant ostr.offset == old(ostr.offset) <= position
      invariant again ==> position + |Encode(value)| == ostr.offset + |Encode(v)|
      invariant again ==> ostr.buffer[..position] + Encode(value) == old(ostr.Written()) + Encode(v)
      invariant !again ==> position == ostr.offset + |Encode(v)|
      invariant !again ==> ostr.buffer[..position] == old(ostr.Written()) + Encode(v)
      invariant forall i :: ostr.offset + |Encode(v)| <= i < ostr.buffer.Length ==>
                  ostr.buffer[i] == old(ostr.buffer[i])
      decreases again, value
    {
      var thisByte := value % 128;
      var next := value / 128;
      thisByte := if next != 0 then thisByte + 128 else thisByte;
      ghost var before := ostr.buffer[..position];
      ostr.buffer[position] := thisByte;
      assert ostr.buffer[..position + 1] == before + [thisByte];
      assert before + Encode(value) == (before + [thisByte]) + if next == 0 then [] else Encode(next);
      position := position + 1;
      value := next;
      again := value != 0;
    }
    ostr.offset := position;
  }

  /** telemetry::ReadStream::ReadVaruint. */
  method ReadVaruint(istr: BufferReadStream) returns (r: Option<nat>)
    requires istr.Valid()
    modifies istr
    ensures istr.Valid()
    ensures match Decode(old(istr.Rest()))
            case Got(v, rest) => r == Some(v) && istr.Rest() == rest
            case _ => r == None && istr.Rest() == []
  {
    var result: nat, k: nat, value: nat := 0, 0, 0x80;
    ghost var acc: nat := 0;
    ghost var raw := Raw(istr.Rest());
    while value >= 0x80
      invariant istr.Valid() && result == Wrap64(acc)
      invariant value >= 0x80 ==> raw == Shift(acc, k, Raw(istr.Rest()))
      invariant value < 0x80 ==> raw == Got(acc, istr.Rest())
      decreases istr.Remaining(), value
    {
      ghost var before := istr.Rest();
      var maybeValue := ReadByte(istr);
      if maybeValue == None {
        return None;
      }
      value := maybeValue.value;
      ShiftStep(acc, k, before);
      AddWraps(acc, ShiftLeft(value % 128, k));
      acc := acc + ShiftLeft(value % 128, k);
      result := Wrap64(result + Wrap64(ShiftLeft(value % 128, k)));
      k := k + 1;
    }
    r := Some(result);
  }

  method ReadByte(istr: BufferReadStream) returns (r: Option<nat>)
    requires istr.Valid()
    modifies istr
    ensures istr.Valid()
    ensures old(istr.Rest()) == [] ==> r == None && istr.Rest() == []
    ensures old(istr.Rest()) != [] ==> r == Some(old(istr.Rest())[0]) && istr.Rest() == old(istr.Rest())[1..]
  {
    r := istr.ReadScalar(1);
    ghost var b := old(istr.Rest());
    if b != [] {
      assert b[..1] == [b[0]] && FromLE([b[0]]) == b[0];
    }
  }

  /** `v` moved up by `k` groups of seven bits. */
  function ShiftLeft(v: nat, k: nat): nat {
    if k == 0 then v else 128 * ShiftLeft(v, k - 1)
  }

  lemma {:induction false} ShiftLeftAdds(v: nat, w: nat, k: nat)
    ensures ShiftLeft(v + 128 * w, k) == ShiftLeft(v, k) + ShiftLeft(w, k + 1)
  {
    if k > 0 {
      ShiftLeftAdds(v, w, k - 1);
    }
  }

  /** What a whole decode is, once `k` bytes adding up to `acc` are behind. */
  ghost function Shift(acc: nat, k: nat, r: Read<nat>): Read<nat> {
    if !r.Got? then Short else Got(acc + ShiftLeft(r.value, k), r.rest)
  }

  /** One more byte: what it adds, wrapped around or not. */
  lemma Accumulate(acc: nat, k: nat, b: seq<byte>)
    requires b != []
    ensures
      var more := ShiftLeft(b[0] % 128, k);
      && Shift(acc, k, Raw(b)) == (if b[0] < 128 then Got(acc + more, b[1..]) else Shift(acc + more, k + 1, Raw(b[1..])))
      && Wrap32(Wrap32(acc) + Wrap32(more)) == Wrap32(acc + more)
  {
    ShiftStep(acc, k, b);
    AddWraps(acc, ShiftLeft(b[0] % 128, k));
  }

  lemma AddWraps(a: nat, b: nat)
    ensures Wrap64(Wrap64(a) + Wrap64(b)) == Wrap64(a + b)
    ensures Wrap32(Wrap32(a) + Wrap32(b)) == Wrap32(a + b)
  {
    AddModulo(a, b, 0x1_0000_0000_0000_0000);
    AddModulo(a, b, 0x1_0000_0000);
  }

  lemma AddModulo(a: nat, b: nat, m: nat)
    requires m > 0
    ensures (a % m + b % m) % m == (a + b) % m
  {
    var s := a % m + b % m;
    var q := s / m + a / m + b / m;
    assert a + b == m * q + s % m by {
      assert a == m * (a / m) + a % m && b == m * (b / m) + b % m && s == m * (s / m) + s % m;
      assert m * q == m * (s / m) + m * (a / m) + m * (b / m);
    }
    ModuloUnique(a + b, m, q, s % m);
  }

  lemma ModuloUnique(x: nat, m: nat, q: nat, r: nat)
    requires r < m && x == m * q + r
    ensures x % m == r
  {
    var d := x / m - q;
    assert m * d == r - x % m by {
      assert x == m * (x / m) + x % m;
      assert m * d == m * (x / m) - m * q;
    }
    assert d > 0 ==> m * d >= m;
    assert d < 0 ==> m * d + m <= 0;
  }

  lemma ShiftStep(acc: nat, k: nat, b: seq<byte>)
    requires b != []
    ensures Shift(acc, k, Raw(b)) ==
            if b[0] < 128 then Got(acc + ShiftLeft(b[0] % 128, k), b[1..])
            else Shift(acc + ShiftLeft(b[0] % 128, k), k + 1, Raw(b[1..]))
  {
    if b[0] >= 128 && Raw(b[1..]).Got? {
      ShiftLeftAdds(b[0] - 128, Raw(b[1..]).value, k);
    }
  }

  /** multiplex::ReadStream::ReadVaruint over any stream: at most five one-byte reads. */
  method ReadVaruint32(istr: BufferReadStream) returns (r: Option<nat>)
    requires istr.Valid()
    modifies istr
    ensures istr.Valid()
    ensures match Decode32(old(istr.Rest()))
            case Got(v, rest) => r == Some(v) && istr.Rest() == rest
            case _ => r == None && istr.Rest() == []
  {
    ghost var start := istr.Rest();
    ghost var raw := Raw(start);
    ghost var acc: nat := 0;
    var result: nat := 0;
    for i := 0 to 5
      invariant istr.Valid() && i <= |start| && istr.Rest() == start[i..] && result == Wrap32(acc)
      invariant forall j :: 0 <= j < i ==> start[j] >= 128
      invariant raw == Shift(acc, i, Raw(start[i..]))
    {
      var maybeByte := ReadByte(istr);
      if maybeByte == None {
        return None;
      }
      var thisByte := maybeByte.value;
      assert thisByte == start[i] && start[i..][1..] == start[i + 1..];
      Accumulate(acc, i, start[i..]);
      acc := acc + ShiftLeft(thisByte % 128, i);
      result := Wrap32(result + Wrap32(ShiftLeft(thisByte % 128, i)));
      if thisByte < 128 {
        assert !TooLong(start);
        return Some(result);
      }
    }
    assert TooLong(start);
    r := Some(TWO32 - 1);
  }

  /** The buffer specialisation: a raw position and a countdown, one ignore at the end. */
  method FastReadVaruint32(istr: BufferReadStream) returns (r: Option<nat>)
    requires istr.Valid()
    modifies istr
    ensures istr.Valid()
    ensures match Decode32(old(istr.Rest()))
            case Got(v, rest) => r == Some(v) && istr.Rest() == rest
            case _ => r == None && istr.Rest() == []
  {
    ghost var start := istr.Rest();
    ghost var acc: nat := 0;
    var result: nat, i: nat := 0, 0;
    var position := istr.offset;
    var remaining := istr.Remaining();
    while i < 5
      invariant istr.Valid() && istr.Rest() == start && i <= |start| && i <= 5 && result == Wrap32(acc)
      invariant position == istr.offset + i && remaining == |start| - i
      invariant forall j :: 0 <= j < i ==> start[j] >= 128
      invariant Raw(start) == Shift(acc, i, Raw(start[i..]))
    {
      if remaining == 0 {
        istr.FastIgnore(i);
        return None;
      }
      remaining := remaining - 1;
      var thisByte := istr.buffer[position];
      assert thisByte == start[i];
      position := position + 1;
      Accumulate(acc, i, start[i..]);
      acc := acc + ShiftLeft(thisByte % 128, i);
      result := Wrap32(result + Wrap32(ShiftLeft(thisByte % 128, i)));
      if thisByte < 128 {
        assert !TooLong(start);
        istr.FastIgnore(i + 1);
        return Some(result);
      }
      i := i + 1;
    }
    assert TooLong(start);
    istr.FastIgnore(i);
    r := Some(TWO32 - 1);
  }

  /** WriteVarint: the shifted value, complemented (an exclusive-or with all sign bits) when negative. */
  function ZigZag(v: int): (e: nat)
    requires -0x8000_0000_0000_0000 <= v < 0x8000_0000_0000_0000
    ensures e < TWO64
  {
    var shifted := (2 * v) % 0x1_0000_0000_0000_0000;
    if v < 0 then 0xFFFF_FFFF_FFFF_FFFF - shifted else shifted
  }

  /** ReadVarint: unsigned 64-bit arithmetic, then read as signed. */
  function UnZigZag(e: nat): (v: int)
    requires e < TWO64
    ensures -0x8000_0000_0000_0000 <= v < 0x8000_0000_0000_0000
  {
    var u := (e / 2 - (e % 2) * e) % 0x1_0000_0000_0000_0000;
    if u < 0x8000_0000_0000_0000 then u else u - 0x1_0000_0000_0000_0000
  }

  /** The two are inverse on all of int64 and of uint64, and a value's code is about twice its magnitude. */
  lemma ZigZagRoundTrip(v: int, e: nat)
    requires -0x8000_0000_0000_0000 <= v < 0x8000_0000_0000_0000 && e < TWO64
    ensures UnZigZag(ZigZag(v)) == v && ZigZag(UnZigZag(e)) == e
    ensures ZigZag(v) == if v >= 0 then 2 * v else -2 * v - 1
  {
    ZigZagValue(v);
    UnZigZagValue(e);
    ZigZagValue(UnZigZag(e));
    UnZigZagValue(ZigZag(v));
  }

  lemma ZigZagValue(v: int)
    requires -0x8000_0000_0000_0000 <= v < 0x8000_0000_0000_0000
    ensures ZigZag(v) == if v >= 0 then 2 * v else -2 * v - 1
  {
    if v < 0 {
      assert 2 * v == -0x1_0000_0000_0000_0000 + (2 * v + 0x1_0000_0000_0000_0000);
    }
  }

  lemma UnZigZagValue(e: nat)
    requires e < TWO64
    ensures UnZigZag(e) == if e % 2 == 0 then e / 2 else -(e / 2) - 1
  {
    if e % 2 == 0 {
      assert (e % 2) * e == 0;
    } else {
      assert (e % 2) * e == e;
    }
  }
}
