/** What client and server of the register protocol share: values, subframe heads, requests and replies as bytes. */
module RegisterProtocol {
  import opened Bytes
  import opened Varuint

  /** Width of an int8, an int16, an int32 and a float. */
  function SizeOf(typ: nat): (n: nat)
    ensures n > 0
  {
    if typ == 0 then 1 else if typ == 1 then 2 else 4
  }

  /** A value is the index of its type and its bit pattern. */
  datatype Value = Value(index: nat, bits: nat)

  ghost predicate IsValue(v: Value) {
    v.index <= 3 && v.bits < Pow256(SizeOf(v.index))
  }

  function ValueBytes(v: Value): seq<byte> {
    LE(v.bits, SizeOf(v.index))
  }

  function ReadValue(b: seq<byte>, typ: nat): (r: Read<Value>)
    ensures !r.Abort? && (r.Got? ==> |r.rest| < |b| && r.value.index == typ)
  {
    var (bits, rest) :- ReadLE(b, SizeOf(typ));
    Got(Value(typ, bits), rest)
  }

  lemma ReadValueAfter(v: Value, rest: seq<byte>)
    requires IsValue(v)
    ensures ReadValue(ValueBytes(v) + rest, v.index) == Got(v, rest)
  {
    ReadLEAfterLE(v.bits, SizeOf(v.index), rest);
  }

  /** A value, or an error code. */
  datatype ReadResult = Good(value: Value) | Bad(error: nat)

  /** One line of what a reply says. */
  datatype Entry = Entry(reg: nat, result: ReadResult)

  const WRITE_BASE := 0x00
  const READ_BASE := 0x10
  const REPLY_BASE := 0x20
  const WRITE_ERROR := 0x30
  const READ_ERROR := 0x31
  const CLIENT_TO_SERVER := 0x40
  const CLIENT_POLL_SERVER := 0x42
  const NOP: byte := 0x50

  /** Up to three registers are counted in the subframe number itself. */
  function ShortCount(n: nat): nat {
    if n < 4 then n else 0
  }

  function Operands(n: nat, reg: nat): seq<byte> {
    (if ShortCount(n) == 0 then Encode(n) else []) + Encode(reg)
  }

  function Head(base: nat, typ: nat, n: nat, reg: nat): seq<byte> {
    Encode(base + typ * 4 + ShortCount(n)) + Operands(n, reg)
  }

  /** The count and the first register, for a subframe number that ends in `short`. */
  function ReadOperands(short: nat, b: seq<byte>): (r: Read<(nat, nat)>)
    ensures !r.Abort? && (r.Got? ==> |r.rest| < |b| && r.value.0 < TWO32 + short && r.value.1 < TWO32)
  {
    var (n, b1) :- if short == 0 then Decode32(b) else Got(short, b);
    var (reg, b2) :- Decode32(b1);
    Got((n, reg), b2)
  }

  lemma OperandsRead(n: nat, reg: nat, rest: seq<byte>)
    requires n < TWO32 && reg < TWO32
    ensures ReadOperands(ShortCount(n), Operands(n, reg) + rest) == Got((n, reg), rest)
  {
    var b1 := Encode(reg) + rest;
    Decode32AfterEncode(reg, rest);
    if ShortCount(n) == 0 {
      assert Operands(n, reg) + rest == Encode(n) + b1;
      Decode32AfterEncode(n, b1);
    } else {
      assert Operands(n, reg) + rest == b1;
    }
  }

  lemma HeadRead(base: nat, typ: nat, n: nat, reg: nat, rest: seq<byte>)
    requires base <= 0x20 && typ <= 3
    ensures Decode32(Head(base, typ, n, reg) + rest) == Got(base + typ * 4 + ShortCount(n), Operands(n, reg) + rest)
  {
    var id := base + typ * 4 + ShortCount(n);
    assert Head(base, typ, n, reg) + rest == Encode(id) + (Operands(n, reg) + rest);
    Decode32AfterEncode(id, Operands(n, reg) + rest);
  }

  lemma IdParts(base: nat, typ: nat, short: nat)
    requires short < 4
    ensures (base + typ * 4 + short - base) % 4 == short && (base + typ * 4 + short - base) / 4 == typ
  {
  }

  function Values(vs: seq<Value>): seq<byte> {
    if vs == [] then [] else ValueBytes(vs[0]) + Values(vs[1..])
  }

  ghost predicate AllOf(vs: seq<Value>, typ: nat) {
    forall i :: 0 <= i < |vs| ==> vs[i].index == typ && IsValue(vs[i])
  }

  // ----- requests

  datatype Op =
    | ReadSingle(reg: nat, typ: nat)
    | ReadMultiple(reg: nat, count: nat, typ: nat)
    | WriteSingle(reg: nat, value: Value)
    | WriteMultiple(reg: nat, values: seq<Value>)

  /** What the builder asserts of its callers, and values of a single type. */
  ghost predicate IsOp(op: Op) {
    && op.reg < TWO32
    && match op
       case ReadSingle(_, typ) => typ <= 3
       case ReadMultiple(_, count, typ) => typ <= 3 && 0 < count < TWO32
       case WriteSingle(_, value) => IsValue(value)
       case WriteMultiple(_, values) => 0 < |values| < TWO32 && AllOf(values, values[0].index)
  }

  function OpBytes(op: Op): seq<byte> {
    match op
    case ReadSingle(reg, typ) => Head(READ_BASE, typ, 1, reg)
    case ReadMultiple(reg, count, typ) => Head(READ_BASE, typ, count, reg)
    case WriteSingle(reg, value) => Head(WRITE_BASE, value.index, 1, reg) + ValueBytes(value)
    case WriteMultiple(reg, values) =>
      if values == [] then [] else Head(WRITE_BASE, values[0].index, |values|, reg) + Values(values)
  }

  function RequestBytes(ops: seq<Op>): seq<byte> {
    if ops == [] then [] else OpBytes(ops[0]) + RequestBytes(ops[1..])
  }

  // ----- replies

  /** The reply subframe to a read of several registers. */
  function ReplyBytes(typ: nat, reg: nat, vs: seq<Value>): seq<byte> {
    Head(REPLY_BASE, typ, |vs|, reg) + Values(vs)
  }

  function ErrorBytes(id: nat, reg: nat, error: nat): seq<byte> {
    Encode(id) + Encode(reg) + Encode(error)
  }

  /** The registers that follow one another from `reg`, wrapping around at 2^32, each with its value. */
  function EntriesFrom(reg: nat, vs: seq<Value>): (es: seq<Entry>)
    ensures |es| == |vs|
    decreases |vs|
  {
    if vs == [] then [] else [Entry(reg, Good(vs[0]))] + EntriesFrom(Wrap32(reg + 1), vs[1..])
  }

  /** The register `i` after `reg`. */
  function RegAt(reg: nat, i: nat): nat {
    Wrap32(reg + i)
  }

  lemma {:induction false} EntryAt(reg: nat, vs: seq<Value>, i: nat)
    requires i < |vs| && reg < TWO32
    ensures EntriesFrom(reg, vs)[i] == Entry(RegAt(reg, i), Good(vs[i]))
    decreases i
  {
    if i > 0 {
      EntryAt(Wrap32(reg + 1), vs[1..], i - 1);
      WrapAdds(reg + 1, i - 1);
    }
  }

  lemma WrapAdds(a: nat, b: nat)
    ensures Wrap32(Wrap32(a) + b) == Wrap32(a + b)
  {
    AddWraps(Wrap32(a), b);
    AddWraps(a, b);
  }

  function Nops(k: nat): seq<byte> {
    if k == 0 then [] else [NOP] + Nops(k - 1)
  }
}
