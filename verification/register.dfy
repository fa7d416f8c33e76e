/** The client: building requests and reading replies. */
module Register {
  import opened Bytes
  import opened Streams
  import opened Varuint
  import opened RegisterProtocol

  /** RegisterRequest. */
  class RegisterRequest {
    const buffer: OStream
    var requestReply: bool

    constructor ()
      ensures fresh(buffer) && buffer.data == [] && !requestReply
    {
      buffer := new OStream();
      requestReply := false;
    }

    method ExpectResponse(value: bool)
      modifies this
      ensures requestReply == value
    {
      requestReply := value;
    }

    /** Subframe number, count when it is not part of that, first register. */
    method WriteHead(base: nat, typ: nat, n: nat, reg: nat)
      modifies buffer
      ensures buffer.data == old(buffer.data) + Head(base, typ, n, reg)
    {
      ghost var was := buffer.data;
      var encodedLength := if n < 4 then n else 0;
      WriteVaruint(buffer, base + typ * 4 + encodedLength);
      ghost var id, mid := Encode(base + typ * 4 + encodedLength), buffer.data;
      if encodedLength == 0 {
        WriteVaruint(buffer, n);
      }
      WriteVaruint(buffer, reg);
      assert buffer.data == mid + Operands(n, reg);
      assert (was + id) + Operands(n, reg) == was + (id + Operands(n, reg));
    }

    method ReadSingle(reg: nat, typ: nat)
      requires typ <= 3 && reg < TWO32
      modifies this, buffer
      ensures buffer.data == old(buffer.data) + OpBytes(Op.ReadSingle(reg, typ)) && requestReply
    {
      WriteHead(READ_BASE, typ, 1, reg);
      requestReply := true;
    }

    method ReadMultiple(reg: nat, numRegisters: nat, typ: nat)
      requires typ <= 3 && reg < TWO32 && 0 < numRegisters < TWO32
      modifies this, buffer
      ensures buffer.data == old(buffer.data) + OpBytes(Op.ReadMultiple(reg, numRegisters, typ)) && requestReply
    {
      WriteHead(READ_BASE, typ, numRegisters, reg);
      requestReply := true;
    }

    method WriteSingle(reg: nat, value: Value)
      requires reg < TWO32 && IsValue(value)
      modifies buffer
      ensures buffer.data == old(buffer.data) + OpBytes(Op.WriteSingle(reg, value))
    {
      WriteHead(WRITE_BASE, value.index, 1, reg);
      buffer.Write(ValueBytes(value));
    }

    method WriteMultiple(startReg: nat, values: seq<Value>)
      requires startReg < TWO32 && 0 < |values| < TWO32
      modifies buffer
      ensures buffer.data == old(buffer.data) + OpBytes(Op.WriteMultiple(startReg, values))
    {
      ghost var was := buffer.data;
      WriteHead(WRITE_BASE, values[0].index, |values|, startReg);
      WriteValues(values);
      Assoc(was, Head(WRITE_BASE, values[0].index, |values|, startReg), Values(values));
    }

    method WriteValues(values: seq<Value>)
      modifies buffer
      ensures buffer.data == old(buffer.data) + Values(values)
    {
      ghost var was := buffer.data;
      for i := 0 to |values|
        invariant buffer.data + Values(values[i..]) == was + Values(values)
      {
        ghost var before, later := buffer.data, Values(values[i + 1..]);
        assert values[i..][1..] == values[i + 1..];
        assert Values(values[i..]) == ValueBytes(values[i]) + later;
        buffer.Write(ValueBytes(values[i]));
        assert (before + ValueBytes(values[i])) + later == before + (ValueBytes(values[i]) + later);
      }
    }

    method Clear()
      modifies this, buffer
      ensures buffer.data == [] && !requestReply
    {
      requestReply := false;
      buffer.data := [];
    }
  }

  // ----- replies

  /** `n` values of one type, for consecutive registers. */
  function ParseValues(b: seq<byte>, typ: nat, reg: nat, n: nat): (r: Read<seq<Entry>>)
    ensures !r.Abort? && (r.Got? ==> |r.rest| <= |b|)
    decreases n
  {
    if n == 0 then Got([], b)
    else
      var (v, b1) :- ReadValue(b, typ);
      var (es, b2) :- ParseValues(b1, typ, Wrap32(reg + 1), n - 1);
      Got([Entry(reg, Good(v))] + es, b2)
  }

  /** ParseSubframe: any failure ends the reply. */
  function ParseSubframe(b: seq<byte>): (r: Read<seq<Entry>>)
    ensures r.Got? ==> |r.rest| < |b|
  {
    var (id, b1) :- Decode32(b);
    ParseOfId(id, b1)
  }

  /** What follows the subframe number. */
  function ParseOfId(id: nat, b: seq<byte>): (r: Read<seq<Entry>>)
    ensures r.Got? ==> |r.rest| <= |b|
  {
    if REPLY_BASE <= id < REPLY_BASE + 16 then ParseRegisters(id - REPLY_BASE, b)
    else if id == WRITE_ERROR || id == READ_ERROR then ParseError(b)
    else Abort
  }

  function ParseRegisters(k: nat, b: seq<byte>): (r: Read<seq<Entry>>)
    requires k < 16
    ensures r.Got? ==> |r.rest| <= |b|
  {
    var (head, rest) :- ReadOperands(k % 4, b);
    ParseValues(rest, k / 4, head.1, head.0)
  }

  function ParseError(b: seq<byte>): (r: Read<seq<Entry>>)
    ensures r.Got? ==> |r.rest| <= |b|
  {
    var (reg, b1) :- Decode32(b);
    var (error, b2) :- Decode32(b1);
    Got([Entry(reg, Bad(error))], b2)
  }

  function ParseReply(b: seq<byte>): seq<Entry>
    decreases |b|
  {
    match ParseSubframe(b)
    case Got(es, rest) => es + ParseReply(rest)
    case _ => []
  }

  lemma {:induction false} ParseValuesAfter(reg: nat, typ: nat, vs: seq<Value>, rest: seq<byte>)
    requires AllOf(vs, typ)
    ensures ParseValues(Values(vs) + rest, typ, reg, |vs|) == Got(EntriesFrom(reg, vs), rest)
    decreases |vs|
  {
    if vs == [] {
      assert [] + rest == rest;
    } else {
      var b1 := Values(vs[1..]) + rest;
      assert Values(vs) + rest == ValueBytes(vs[0]) + b1;
      ReadValueAfter(vs[0], b1);
      ParseValuesAfter(Wrap32(reg + 1), typ, vs[1..], rest);
    }
  }

  lemma ParseAfterHead(typ: nat, n: nat, reg: nat, b: seq<byte>)
    requires typ <= 3 && reg < TWO32 && n < TWO32
    ensures ParseSubframe(Head(REPLY_BASE, typ, n, reg) + b) == ParseValues(b, typ, reg, n)
  {
    HeadRead(REPLY_BASE, typ, n, reg, b);
    OperandsRead(n, reg, b);
    IdParts(REPLY_BASE, typ, ShortCount(n));
  }

  /** A reply subframe reads as its registers and values, whatever follows. */
  lemma ParseAfterReply(typ: nat, reg: nat, vs: seq<Value>, rest: seq<byte>)
    requires typ <= 3 && reg < TWO32 && |vs| < TWO32 && AllOf(vs, typ)
    ensures ParseReply(ReplyBytes(typ, reg, vs) + rest) == EntriesFrom(reg, vs) + ParseReply(rest)
  {
    var b := Values(vs) + rest;
    assert ReplyBytes(typ, reg, vs) + rest == Head(REPLY_BASE, typ, |vs|, reg) + b;
    ParseValuesAfter(reg, typ, vs, rest);
    ParseAfterHead(typ, |vs|, reg, b);
  }

  lemma ParseAfterError(id: nat, reg: nat, error: nat, rest: seq<byte>)
    requires (id == WRITE_ERROR || id == READ_ERROR) && reg < TWO32 && error < TWO32
    ensures ParseReply(ErrorBytes(id, reg, error) + rest) == [Entry(reg, Bad(error))] + ParseReply(rest)
  {
    var b2 := Encode(error) + rest;
    var b1 := Encode(reg) + b2;
    assert ErrorBytes(id, reg, error) + rest == Encode(id) + b1;
    Decode32AfterEncode(id, b1);
    Decode32AfterEncode(reg, b2);
    Decode32AfterEncode(error, rest);
  }

  /** Padding says nothing. */
  lemma ParseNops(k: nat)
    ensures ParseReply(Nops(k)) == []
  {
    if k > 0 {
      NopIsRead(Nops(k - 1));
    }
  }

  lemma NopIsRead(rest: seq<byte>)
    ensures Decode32([NOP] + rest) == Got(0x50, rest)
  {
    assert Encode(0x50) == [NOP];
    Decode32AfterEncode(0x50, rest);
  }

  /** The overload that answers with a std::map inserts one entry after the other. */
  function ToMap(es: seq<Entry>): map<nat, ReadResult> {
    if es == [] then map[]
    else
      var n := |es| - 1;
      var m := ToMap(es[..n]);
      if es[n].reg in m then m else m[es[n].reg := es[n].result]
  }

  /** What comes first about a register is kept. */
  lemma {:induction false} FirstEntryIsKept(es: seq<Entry>, i: nat)
    requires i < |es| && forall j :: 0 <= j < i ==> es[j].reg != es[i].reg
    ensures es[i].reg in ToMap(es) && ToMap(es)[es[i].reg] == es[i].result
  {
    var n := |es| - 1;
    if i < n {
      FirstEntryIsKept(es[..n], i);
    } else {
      OnlyEntered(es[..n], es[n].reg);
    }
  }

  lemma {:induction false} OnlyEntered(es: seq<Entry>, reg: nat)
    requires forall j :: 0 <= j < |es| ==> es[j].reg != reg
    ensures reg !in ToMap(es)
  {
    if es != [] {
      OnlyEntered(es[..|es| - 1], reg);
    }
  }

  // ----- the methods

  /** What was parsed is added to the output; a failure may leave some of it there. */
  ghost predicate Grew(output: seq<Entry>, r: Read<seq<Entry>>, ok: bool, grown: seq<Entry>, left: seq<byte>) {
    && output <= grown
    && match r
       case Got(es, rest) => ok && grown == output + es && left == rest
       case _ => !ok
  }

  method ParseOneSubframe(stream: BufferReadStream, output: seq<Entry>) returns (ok: bool, grown: seq<Entry>)
    requires stream.Valid()
    modifies stream
    ensures stream.Valid() && Grew(output, ParseSubframe(old(stream.Rest())), ok, grown, stream.Rest())
  {
    var maybeId := ReadVaruint32(stream);
    if maybeId == None {
      return false, output;
    }
    ok, grown := ParseRest(stream, maybeId.value, output);
  }

  method ParseRest(stream: BufferReadStream, id: nat, output: seq<Entry>) returns (ok: bool, grown: seq<Entry>)
    requires stream.Valid()
    modifies stream
    ensures stream.Valid() && Grew(output, ParseOfId(id, old(stream.Rest())), ok, grown, stream.Rest())
  {
    if REPLY_BASE <= id < REPLY_BASE + 16 {
      ok, grown := ParseRegisterValues(stream, id, output);
    } else if id == WRITE_ERROR || id == READ_ERROR {
      ok, grown := ParseOneError(stream, output);
    } else {
      return false, output;
    }
  }

  method ParseRegisterValues(stream: BufferReadStream, id: nat, output: seq<Entry>) returns (ok: bool, grown: seq<Entry>)
    requires stream.Valid() && REPLY_BASE <= id < REPLY_BASE + 16
    modifies stream
    ensures stream.Valid() && Grew(output, ParseRegisters(id - REPLY_BASE, old(stream.Rest())), ok, grown, stream.Rest())
  {
    grown := output;
    var encodedLength := id % 4;
    var typ := (id - REPLY_BASE) / 4;
    assert (id - REPLY_BASE) % 4 == encodedLength;
    var num, start := ParseOperands(stream, encodedLength);
    if num == None || start == None {
      return false, grown;
    }
    ok, grown := ParseManyValues(stream, typ, start.value, num.value, output);
  }

  method ParseOneError(stream: BufferReadStream, output: seq<Entry>) returns (ok: bool, grown: seq<Entry>)
    requires stream.Valid()
    modifies stream
    ensures stream.Valid() && Grew(output, ParseError(old(stream.Rest())), ok, grown, stream.Rest())
  {
    var reg := ReadVaruint32(stream);
    var error := ReadVaruint32(stream);
    if reg == None || error == None {
      return false, output;
    }
    return true, output + [Entry(reg.value, Bad(error.value))];
  }

  /** The count, unless the subframe number held it, and the first register. */
  method ParseOperands(stream: BufferReadStream, encodedLength: nat) returns (num: Option<nat>, start: Option<nat>)
    requires stream.Valid()
    modifies stream
    ensures stream.Valid()
    ensures match ReadOperands(encodedLength, old(stream.Rest()))
            case Got(v, rest) => num == Some(v.0) && start == Some(v.1) && stream.Rest() == rest
            case _ => num == None || start == None
  {
    num, start := Some(encodedLength), None;
    if encodedLength == 0 {
      num := ReadVaruint32(stream);
    }
    if num.Some? {
      start := ReadVaruint32(stream);
    }
  }

  method ParseManyValues(stream: BufferReadStream, typ: nat, startReg: nat, numRegisters: nat, output: seq<Entry>)
    returns (ok: bool, grown: seq<Entry>)
    requires stream.Valid() && typ <= 3 && startReg < TWO32
    modifies stream
    ensures stream.Valid() && Grew(output, ParseValues(old(stream.Rest()), typ, startReg, numRegisters), ok, grown, stream.Rest())
  {
    grown := output;
    ghost var whole := ParseValues(stream.Rest(), typ, startReg, numRegisters);
    ghost var reg, more := startReg, whole;
    for i := 0 to numRegisters
      invariant stream.Valid() && output <= grown
      invariant reg == Wrap32(startReg + i) && more == ParseValues(stream.Rest(), typ, reg, numRegisters - i)
      invariant Continues(output, whole, grown, more)
    {
      ghost var b := stream.Rest();
      var value := ParseOneValue(stream, typ);
      if value == None {
        return false, grown;
      }
      ContinuesStep(output, whole, grown, b, typ, reg, numRegisters - i);
      grown := grown + [Entry(Wrap32(startReg + i), Good(value.value))];
      WrapAdds(startReg + i, 1);
      reg := Wrap32(reg + 1);
      more := ParseValues(stream.Rest(), typ, reg, numRegisters - i - 1);
    }
    ok := true;
  }

  method ParseOneValue(stream: BufferReadStream, typ: nat) returns (value: Option<Value>)
    requires stream.Valid() && typ <= 3
    modifies stream
    ensures stream.Valid()
    ensures match ReadValue(old(stream.Rest()), typ)
            case Got(v, rest) => value == Some(v) && stream.Rest() == rest
            case _ => value == None
  {
    var bits := stream.ReadScalar(SizeOf(typ));
    value := if bits == None then None else Some(Value(typ, bits.value));
  }

  /** One value further. */
  lemma ContinuesStep(output: seq<Entry>, whole: Read<seq<Entry>>, grown: seq<Entry>, b: seq<byte>, typ: nat, reg: nat,
                      n: nat)
    requires n > 0 && Continues(output, whole, grown, ParseValues(b, typ, reg, n)) && ReadValue(b, typ).Got?
    ensures Continues(output, whole, grown + [Entry(reg, Good(ReadValue(b, typ).value))],
                      ParseValues(ReadValue(b, typ).rest, typ, Wrap32(reg + 1), n - 1))
  {
    var more := ParseValues(ReadValue(b, typ).rest, typ, Wrap32(reg + 1), n - 1);
    if more.Got? {
      Assoc(grown, [Entry(reg, Good(ReadValue(b, typ).value))], more.value);
    }
  }

  /** Parsing `whole` after `output` comes to the same as parsing `more` after `grown`. */
  ghost predicate Continues(output: seq<Entry>, whole: Read<seq<Entry>>, grown: seq<Entry>, more: Read<seq<Entry>>) {
    if more.Got? then whole.Got? && output + whole.value == grown + more.value && whole.rest == more.rest
    else !whole.Got?
  }

  /** ParseRegisterReply: subframe after subframe; what a failed one had added is dropped. */
  method ParseRegisterReply(stream: BufferReadStream) returns (result: seq<Entry>)
    requires stream.Valid()
    modifies stream
    ensures result == ParseReply(old(stream.Rest()))
  {
    result := [];
    ghost var all := ParseReply(stream.Rest());
    var success := true;
    while success
      invariant stream.Valid()
      invariant if success then all == result + ParseReply(stream.Rest()) else result == all
      decreases success, stream.Remaining()
    {
      ghost var b, before := stream.Rest(), result;
      ReplyStep(b, before);
      var oldSize := |result|;
      success, result := ParseOneSubframe(stream, result);
      if !success {
        result := result[..oldSize];
      }
    }
  }

  lemma ReplyStep(b: seq<byte>, before: seq<Entry>)
    ensures
      match ParseSubframe(b)
      case Got(es, rest) => before + ParseReply(b) == before + es + ParseReply(rest)
      case _ => before + ParseReply(b) == before
  {
  }
}
