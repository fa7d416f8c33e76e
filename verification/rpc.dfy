/** The register protocol end to end: what the client asked for is what the device did and what the client reads
    back. */
module Rpc {
  import opened Bytes
  import opened Varuint
  import opened RegisterProtocol
  import opened Register
  import opened MicroServer

  // ----- what a request means, without any bytes

  /** The device's state, what the client should learn, and whether execution stopped here. */
  datatype Performed<S> = Performed(s: S, entries: seq<Entry>, over: bool)

  /** An unknown register is reported as error 1, one that is not writeable as error 2. */
  function PerformWrites<S>(dev: Device<S>, s: S, reg: nat, vs: seq<Value>): Performed<S>
    decreases |vs|
  {
    if vs == [] then Performed(s, [], false)
    else
      var (t, action) := dev.write(s, reg, vs[0]);
      if action == DiscardRemaining then Performed(t, [], true)
      else
        var later := PerformWrites(dev, t, Wrap32(reg + 1), vs[1..]);
        match action
        case UnknownRegister => later.(entries := [Entry(reg, Bad(1))] + later.entries)
        case NotWriteable => later.(entries := [Entry(reg, Bad(2))] + later.entries)
        case _ => later
  }

  /** All the values, or nothing but the first error, after which nothing more is done. */
  function PerformReads<S>(dev: Device<S>, s: S, typ: nat, reg: nat, n: nat): Performed<S> {
    match Reads(dev, s, typ, reg, n)
    case AllRead(vs) => Performed(s, EntriesFrom(reg, vs), false)
    case FailedAt(r, e) => Performed(s, [Entry(r, Bad(e))], true)
  }

  function PerformOp<S>(dev: Device<S>, s: S, op: Op): Performed<S> {
    match op
    case ReadSingle(reg, typ) => PerformReads(dev, s, typ, reg, 1)
    case ReadMultiple(reg, count, typ) => PerformReads(dev, s, typ, reg, count)
    case WriteSingle(reg, value) => PerformWrites(dev, s, reg, [value])
    case WriteMultiple(reg, values) => PerformWrites(dev, s, reg, values)
  }

  function Perform<S>(dev: Device<S>, s: S, ops: seq<Op>): Performed<S>
    decreases |ops|
  {
    if ops == [] then Performed(s, [], false)
    else
      var first := PerformOp(dev, s, ops[0]);
      if first.over then first
      else
        var later := Perform(dev, first.s, ops[1..]);
        later.(entries := first.entries + later.entries)
  }

  /** The reads are of registers reg, reg + 1 and so on modulo 2^32, and fail at the first that does. */
  lemma {:induction false} ReadsInOrder<S>(dev: Device<S>, s: S, typ: nat, reg: nat, n: nat)
    requires reg < TWO32
    ensures
      match Reads(dev, s, typ, reg, n)
      case AllRead(vs) => forall i: nat :: i < n ==> dev.read(s, RegAt(reg, i), typ) == Good(vs[i])
      case FailedAt(r, e) =>
        exists i: nat :: i < n && r == RegAt(reg, i) && dev.read(s, r, typ) == Bad(e)
               && forall j: nat :: j < i ==> dev.read(s, RegAt(reg, j), typ).Good?
    decreases n
  {
    if n == 0 {
    } else if dev.read(s, reg, typ).Bad? {
      assert reg == RegAt(reg, 0);
    } else {
      var next := Wrap32(reg + 1);
      ReadsInOrder(dev, s, typ, next, n - 1);
      forall i: nat ensures RegAt(next, i) == RegAt(reg, i + 1) {
        WrapAdds(reg + 1, i);
      }
      match Reads(dev, s, typ, next, n - 1)
      case AllRead(vs) =>
        forall i: nat | i < n
          ensures dev.read(s, RegAt(reg, i), typ) == Good(([dev.read(s, reg, typ).value] + vs)[i])
        {
          assert i > 0 ==> RegAt(next, i - 1) == RegAt(reg, i);
        }
      case FailedAt(r, e) =>
        var i: nat :| i < n - 1 && r == RegAt(next, i) && dev.read(s, r, typ) == Bad(e)
                 && forall j: nat :: j < i ==> dev.read(s, RegAt(next, j), typ).Good?;
        assert r == RegAt(reg, i + 1);
        forall j: nat | j < i + 1 ensures dev.read(s, RegAt(reg, j), typ).Good? {
          assert j > 0 ==> RegAt(next, j - 1) == RegAt(reg, j);
        }
    }
  }

  /** The state after the first `n` values went to registers reg, reg + 1 and so on modulo 2^32, one after the other. */
  function AfterWrites<S>(dev: Device<S>, s: S, reg: nat, vs: seq<Value>, n: nat): S
    requires n <= |vs|
  {
    if n == 0 then s else dev.write(AfterWrites(dev, s, reg, vs, n - 1), RegAt(reg, n - 1), vs[n - 1]).0
  }

  lemma {:induction false} FirstThenRest<S>(dev: Device<S>, s: S, reg: nat, vs: seq<Value>, n: nat)
    requires n < |vs| && reg < TWO32
    ensures AfterWrites(dev, s, reg, vs, n + 1)
         == AfterWrites(dev, dev.write(s, reg, vs[0]).0, Wrap32(reg + 1), vs[1..], n)
  {
    assert RegAt(reg, 0) == reg;
    if n == 0 {
      assert AfterWrites(dev, s, reg, vs, 1) == dev.write(AfterWrites(dev, s, reg, vs, 0), RegAt(reg, 0), vs[0]).0;
    } else {
      FirstThenRest(dev, s, reg, vs, n - 1);
      WrapAdds(reg + 1, n - 1);
      assert RegAt(Wrap32(reg + 1), n - 1) == RegAt(reg, n);
    }
  }

  /** The writes happen in that order, up to and including the one that discards the rest. */
  lemma {:induction false} WritesInOrder<S>(dev: Device<S>, s: S, reg: nat, vs: seq<Value>) returns (n: nat)
    requires reg < TWO32
    ensures n <= |vs| && PerformWrites(dev, s, reg, vs).s == AfterWrites(dev, s, reg, vs, n)
    ensures PerformWrites(dev, s, reg, vs).over ==>
              n > 0 && dev.write(AfterWrites(dev, s, reg, vs, n - 1), RegAt(reg, n - 1), vs[n - 1]).1 == DiscardRemaining
    ensures !PerformWrites(dev, s, reg, vs).over ==> n == |vs|
    decreases |vs|
  {
    if vs == [] {
      n := 0;
    } else {
      assert RegAt(reg, 0) == reg;
      var (t, action) := dev.write(s, reg, vs[0]);
      if action == DiscardRemaining {
        n := 1;
        assert AfterWrites(dev, s, reg, vs, 0) == s;
      } else {
        var k := WritesInOrder(dev, t, Wrap32(reg + 1), vs[1..]);
        n := k + 1;
        if k < |vs| {
          FirstThenRest(dev, s, reg, vs, k);
        }
        if k > 0 {
          FirstThenRest(dev, s, reg, vs, k - 1);
          WrapAdds(reg + 1, k - 1);
          assert RegAt(Wrap32(reg + 1), k - 1) == RegAt(reg, k);
        }
      }
    }
  }

  /** What the application promises of read: a value of the type asked for, or a 32-bit error code. */
  ghost predicate Honest<S(!new)>(dev: Device<S>) {
    forall s, reg, typ :: typ <= 3 ==> HonestRead(dev.read(s, reg, typ), typ)
  }

  ghost predicate HonestRead(r: ReadResult, typ: nat) {
    match r
    case Good(v) => v.index == typ && IsValue(v)
    case Bad(e) => e < TWO32
  }

  // ----- the bytes of the reply

  function ErrorsBytes(es: seq<Entry>): seq<byte> {
    if es == [] then []
    else (if es[0].result.Bad? then ErrorBytes(WRITE_ERROR, es[0].reg, es[0].result.error) else []) + ErrorsBytes(es[1..])
  }

  function ReadReply<S>(dev: Device<S>, s: S, typ: nat, reg: nat, n: nat): seq<byte> {
    match Reads(dev, s, typ, reg, n)
    case AllRead(vs) => ReplyBytes(typ, reg, vs)
    case FailedAt(r, e) => ErrorBytes(READ_ERROR, r, e)
  }

  function OpReply<S>(dev: Device<S>, s: S, op: Op): seq<byte> {
    match op
    case ReadSingle(reg, typ) => ReadReply(dev, s, typ, reg, 1)
    case ReadMultiple(reg, count, typ) => ReadReply(dev, s, typ, reg, count)
    case _ => ErrorsBytes(PerformOp(dev, s, op).entries)
  }

  function Reply<S>(dev: Device<S>, s: S, ops: seq<Op>): seq<byte>
    decreases |ops|
  {
    if ops == [] then []
    else
      var first := PerformOp(dev, s, ops[0]);
      OpReply(dev, s, ops[0]) + if first.over then [] else Reply(dev, first.s, ops[1..])
  }

  // ----- the server does what the request means

  /** The outcome of a subframe that meant `p` and answered `reply`. */
  ghost predicate Does<S>(o: Outcome<S>, p: Performed<S>, rest: seq<byte>, response: Option<seq<byte>>,
                          reply: seq<byte>) {
    && o.s == p.s && o.response == Emit(response, reply)
    && (if p.over then o.Stopped? else o.Next? && o.rest == rest)
  }

  lemma {:induction false} WritesDo<S>(dev: Device<S>, s: S, vs: seq<Value>, typ: nat, reg: nat, rest: seq<byte>,
                                       response: Option<seq<byte>>)
    requires AllOf(vs, typ)
    ensures
      var p := PerformWrites(dev, s, reg, vs);
      Does(Writes(dev, s, Values(vs) + rest, typ, reg, |vs|, response), p, rest, response, ErrorsBytes(p.entries))
    decreases |vs|
  {
    if vs == [] {
      assert [] + rest == rest;
      EmitNothing(response);
    } else {
      var b1 := Values(vs[1..]) + rest;
      Assoc(ValueBytes(vs[0]), Values(vs[1..]), rest);
      ReadValueAfter(vs[0], b1);
      var (t, action) := dev.write(s, reg, vs[0]);
      if action == DiscardRemaining {
        EmitNothing(response);
      } else {
        var r1 := if action == Success then response
                  else Emit(response, ErrorBytes(WRITE_ERROR, reg, WriteErrorOf(action)));
        WritesDo(dev, t, vs[1..], typ, Wrap32(reg + 1), rest, r1);
        var later := PerformWrites(dev, t, Wrap32(reg + 1), vs[1..]);
        if action != Success {
          var es := [Entry(reg, Bad(WriteErrorOf(action)))] + later.entries;
          assert es[1..] == later.entries;
          EmitTwice(response, ErrorBytes(WRITE_ERROR, reg, WriteErrorOf(action)), ErrorsBytes(later.entries));
        }
      }
    }
  }

  lemma EmitNothing(response: Option<seq<byte>>)
    ensures Emit(response, []) == response
  {
    if response.Some? {
      assert response.value + [] == response.value;
    }
  }

  lemma EmitTwice(response: Option<seq<byte>>, a: seq<byte>, b: seq<byte>)
    ensures Emit(Emit(response, a), b) == Emit(response, a + b)
  {
    if response.Some? {
      Assoc(response.value, a, b);
    }
  }

  /** A head of either kind is taken apart into what it was put together from. */
  lemma HeadIsSubframe<S>(dev: Device<S>, s: S, base: nat, typ: nat, n: nat, reg: nat, rest: seq<byte>,
                          response: Option<seq<byte>>)
    requires base == WRITE_BASE || base == READ_BASE
    requires typ <= 3 && n < TWO32 && reg < TWO32
    ensures Subframe(dev, s, Head(base, typ, n, reg) + rest, response) ==
              if base == WRITE_BASE then WriteSubframe(dev, s, typ * 4 + ShortCount(n), Operands(n, reg) + rest, response)
              else ReadSubframe(dev, s, typ * 4 + ShortCount(n), Operands(n, reg) + rest, response)
    ensures (typ * 4 + ShortCount(n)) % 4 == ShortCount(n) && (typ * 4 + ShortCount(n)) / 4 == typ
    ensures ReadOperands(ShortCount(n), Operands(n, reg) + rest) == Got((n, reg), rest)
  {
    HeadRead(base, typ, n, reg, rest);
    IdParts(base, typ, ShortCount(n));
    OperandsRead(n, reg, rest);
    var id, b := base + typ * 4 + ShortCount(n), Operands(n, reg) + rest;
    assert Subframe(dev, s, Head(base, typ, n, reg) + rest, response) == OfType(dev, s, id, b, response);
    IdIsOfType(dev, s, base, typ * 4 + ShortCount(n), b, response);
  }

  lemma IdIsOfType<S>(dev: Device<S>, s: S, base: nat, k: nat, b: seq<byte>, response: Option<seq<byte>>)
    requires (base == WRITE_BASE || base == READ_BASE) && k < 16
    ensures OfType(dev, s, base + k, b, response) ==
              if base == WRITE_BASE then WriteSubframe(dev, s, k, b, response) else ReadSubframe(dev, s, k, b, response)
  {
  }

  lemma WriteDoes<S>(dev: Device<S>, s: S, reg: nat, vs: seq<Value>, rest: seq<byte>, response: Option<seq<byte>>)
    requires reg < TWO32 && 0 < |vs| < TWO32 && AllOf(vs, vs[0].index)
    ensures
      var p := PerformWrites(dev, s, reg, vs);
      Does(Subframe(dev, s, Head(WRITE_BASE, vs[0].index, |vs|, reg) + (Values(vs) + rest), response), p, rest, response,
           ErrorsBytes(p.entries))
  {
    HeadIsSubframe(dev, s, WRITE_BASE, vs[0].index, |vs|, reg, Values(vs) + rest, response);
    WritesDo(dev, s, vs, vs[0].index, reg, rest, response);
  }

  lemma ReadDoes<S>(dev: Device<S>, s: S, typ: nat, reg: nat, n: nat, rest: seq<byte>, response: Option<seq<byte>>)
    requires typ <= 3 && reg < TWO32 && n < TWO32 && response.Some?
    ensures Does(Subframe(dev, s, Head(READ_BASE, typ, n, reg) + rest, response), PerformReads(dev, s, typ, reg, n), rest,
                 response, ReadReply(dev, s, typ, reg, n))
  {
    HeadIsSubframe(dev, s, READ_BASE, typ, n, reg, rest, response);
    ReplyHeadIsHead(typ, n, reg);
  }

  /** The server's reply starts as the client expects. */
  lemma ReplyHeadIsHead(typ: nat, n: nat, reg: nat)
    ensures ReplyHead(typ * 4 + ShortCount(n), n, reg) == Head(REPLY_BASE, typ, n, reg)
  {
    IdParts(0, typ, ShortCount(n));
    assert REPLY_BASE + (typ * 4 + ShortCount(n)) == REPLY_BASE + typ * 4 + ShortCount(n);
    Assoc(Encode(REPLY_BASE + typ * 4 + ShortCount(n)), if ShortCount(n) == 0 then Encode(n) else [], Encode(reg));
  }

  ghost predicate Reading(op: Op) {
    op.ReadSingle? || op.ReadMultiple?
  }

  lemma OpDoes<S>(dev: Device<S>, s: S, op: Op, rest: seq<byte>, response: Option<seq<byte>>)
    requires IsOp(op) && (Reading(op) ==> response.Some?)
    ensures Does(Subframe(dev, s, OpBytes(op) + rest, response), PerformOp(dev, s, op), rest, response, OpReply(dev, s, op))
  {
    match op
    case ReadSingle(reg, typ) => ReadDoes(dev, s, typ, reg, 1, rest, response);
    case ReadMultiple(reg, count, typ) => ReadDoes(dev, s, typ, reg, count, rest, response);
    case WriteSingle(reg, value) =>
      assert Values([value]) == ValueBytes(value) + [] == ValueBytes(value);
      Assoc(Head(WRITE_BASE, value.index, 1, reg), ValueBytes(value), rest);
      WriteDoes(dev, s, reg, [value], rest, response);
    case WriteMultiple(reg, values) =>
      Assoc(Head(WRITE_BASE, values[0].index, |values|, reg), Values(values), rest);
      WriteDoes(dev, s, reg, values, rest, response);
  }

  lemma OpIsNotEmpty(op: Op)
    requires IsOp(op)
    ensures OpBytes(op) != []
  {
  }

  /** The server performs the request as it is meant, in order, and answers; padding at its end changes nothing. */
  lemma {:induction false} ServerPerforms<S>(dev: Device<S>, s: S, ops: seq<Op>, k: nat, response: Option<seq<byte>>)
    requires forall i :: 0 <= i < |ops| ==> IsOp(ops[i]) && (Reading(ops[i]) ==> response.Some?)
    ensures
      var f := Process(dev, s, RequestBytes(ops) + Nops(k), response);
      f.s == Perform(dev, s, ops).s && f.response == Emit(response, Reply(dev, s, ops))
      && (f.why == None <==> !Perform(dev, s, ops).over)
    decreases |ops|
  {
    if ops == [] {
      assert [] + Nops(k) == Nops(k);
      EmitNothing(response);
      NopsDoNothing(dev, s, k, response);
    } else {
      var op, p := ops[0], PerformOp(dev, s, ops[0]);
      var reply := OpReply(dev, s, op);
      var rest := RequestBytes(ops[1..]) + Nops(k);
      Assoc(OpBytes(op), RequestBytes(ops[1..]), Nops(k));
      OpDoes(dev, s, op, rest, response);
      OpIsNotEmpty(op);
      if p.over {
        assert reply + [] == reply;
      } else {
        ServerPerforms(dev, p.s, ops[1..], k, Emit(response, reply));
        EmitTwice(response, reply, Reply(dev, p.s, ops[1..]));
      }
    }
  }

  lemma {:induction false} NopsDoNothing<S>(dev: Device<S>, s: S, k: nat, response: Option<seq<byte>>)
    ensures Process(dev, s, Nops(k), response) == Final(s, response, None)
  {
    if k > 0 {
      NopIsRead(Nops(k - 1));
      NopsDoNothing(dev, s, k - 1, response);
    }
  }

  /** In bytes: a write of 32 to register 2 as an int8, refused by a device either way. */
  lemma RefusedWriteOnTheWire<S>(dev: Device<S>, s: S, t: S, action: WriteAction)
    requires dev.write(s, 2, Value(0, 32)) == (t, action) && (action == UnknownRegister || action == NotWriteable)
    ensures
      var f := Process(dev, s, [0x01, 0x02, 0x20], Some([]));
      f.s == t && f.response == Some([0x30, 0x02, if action == UnknownRegister then 0x01 else 0x02])
  {
    var op, error := WriteSingle(2, Value(0, 32)), if action == UnknownRegister then 1 else 2;
    SmallBytes();
    assert OpBytes(op) == [0x01, 0x02, 0x20];
    OneOnTheWire(dev, s, op, [0x01, 0x02, 0x20]);
    var es := [Entry(2, Bad(error))];
    assert PerformWrites(dev, t, 3, [Value(0, 32)][1..]) == Performed(t, [], false);
    assert PerformOp(dev, s, op) == Performed(t, es, false);
    assert es[1..] == [];
    assert ErrorsBytes(es) == [0x30, 0x02, error];
  }

  /** And a read of it, with either result. */
  lemma ReadOnTheWire<S>(dev: Device<S>, s: S)
    ensures dev.read(s, 2, 0) == Good(Value(0, 32)) ==>
              Process(dev, s, [0x11, 0x02], Some([])).response == Some([0x21, 0x02, 0x20])
    ensures dev.read(s, 2, 0) == Bad(7) ==>
              Process(dev, s, [0x11, 0x02], Some([])).response == Some([0x31, 0x02, 0x07])
  {
    var op := ReadSingle(2, 0);
    SmallBytes();
    assert OpBytes(op) == [0x11, 0x02];
    OneOnTheWire(dev, s, op, [0x11, 0x02]);
    assert Reads(dev, s, 0, 3, 0) == AllRead([]);
    assert dev.read(s, 2, 0) == Good(Value(0, 32)) ==> Reads(dev, s, 0, 2, 1) == AllRead([Value(0, 32)]);
    assert ReplyBytes(0, 2, [Value(0, 32)]) == [0x21, 0x02, 0x20];
    assert ErrorBytes(READ_ERROR, 2, 7) == [0x31, 0x02, 0x07];
  }

  lemma SmallBytes()
    ensures Encode(1) == [1] && Encode(2) == [2] && Encode(7) == [7] && Encode(0x11) == [0x11] && Encode(0x21) == [0x21]
    ensures Encode(0x30) == [0x30] && Encode(0x31) == [0x31] && ValueBytes(Value(0, 32)) == [0x20]
    ensures Values([Value(0, 32)]) == [0x20]
  {
    assert LE(32, 1) == [32] + LE(0, 0);
    assert [Value(0, 32)][1..] == [];
  }

  lemma OneOnTheWire<S>(dev: Device<S>, s: S, op: Op, b: seq<byte>)
    requires IsOp(op) && OpBytes(op) == b
    ensures Process(dev, s, b, Some([])).s == PerformOp(dev, s, op).s
    ensures Process(dev, s, b, Some([])).response == Some(OpReply(dev, s, op))
  {
    ServerPerforms(dev, s, [op], 0, Some([]));
    assert [op][1..] == [];
    assert RequestBytes([op]) + Nops(0) == b;
    var p := PerformOp(dev, s, op);
    assert Perform(dev, p.s, []) == Performed(p.s, [], false);
    assert Perform(dev, s, [op]).s == p.s;
    assert Reply(dev, s, [op]) == OpReply(dev, s, op);
    assert [] + OpReply(dev, s, op) == OpReply(dev, s, op);
  }

  // ----- the client reads what was meant

  lemma {:induction false} ErrorsRead<S>(dev: Device<S>, s: S, reg: nat, vs: seq<Value>, more: seq<byte>)
    requires reg < TWO32
    ensures
      var es := PerformWrites(dev, s, reg, vs).entries;
      ParseReply(ErrorsBytes(es) + more) == es + ParseReply(more)
    decreases |vs|
  {
    if vs == [] {
      assert [] + more == more && [] + ParseReply(more) == ParseReply(more);
    } else {
      var (t, action) := dev.write(s, reg, vs[0]);
      if action == DiscardRemaining {
        assert [] + more == more && [] + ParseReply(more) == ParseReply(more);
      } else {
        ErrorsRead(dev, t, Wrap32(reg + 1), vs[1..], more);
        var later := PerformWrites(dev, t, Wrap32(reg + 1), vs[1..]).entries;
        if action != Success {
          var first := Entry(reg, Bad(WriteErrorOf(action)));
          assert ([first] + later)[1..] == later;
          Assoc(ErrorBytes(WRITE_ERROR, reg, WriteErrorOf(action)), ErrorsBytes(later), more);
          ParseAfterError(WRITE_ERROR, reg, WriteErrorOf(action), ErrorsBytes(later) + more);
          Assoc([first], later, ParseReply(more));
        }
      }
    }
  }

  lemma {:induction false} HonestValues<S(!new)>(dev: Device<S>, s: S, typ: nat, reg: nat, n: nat)
    requires Honest(dev) && typ <= 3 && reg < TWO32
    ensures match Reads(dev, s, typ, reg, n)
            case AllRead(vs) => AllOf(vs, typ)
            case FailedAt(r, e) => r < TWO32 && e < TWO32
    decreases n
  {
    if n > 0 {
      assert HonestRead(dev.read(s, reg, typ), typ);
      HonestValues(dev, s, typ, Wrap32(reg + 1), n - 1);
    }
  }

  lemma ReadsRead<S(!new)>(dev: Device<S>, s: S, typ: nat, reg: nat, n: nat, more: seq<byte>)
    requires Honest(dev) && typ <= 3 && reg < TWO32 && n < TWO32
    ensures ParseReply(ReadReply(dev, s, typ, reg, n) + more) == PerformReads(dev, s, typ, reg, n).entries + ParseReply(more)
  {
    HonestValues(dev, s, typ, reg, n);
    match Reads(dev, s, typ, reg, n)
    case AllRead(vs) => ParseAfterReply(typ, reg, vs, more);
    case FailedAt(r, e) => ParseAfterError(READ_ERROR, r, e, more);
  }

  lemma OpRead<S(!new)>(dev: Device<S>, s: S, op: Op, more: seq<byte>)
    requires Honest(dev) && IsOp(op)
    ensures ParseReply(OpReply(dev, s, op) + more) == PerformOp(dev, s, op).entries + ParseReply(more)
  {
    match op
    case ReadSingle(reg, typ) => ReadsRead(dev, s, typ, reg, 1, more);
    case ReadMultiple(reg, count, typ) => ReadsRead(dev, s, typ, reg, count, more);
    case WriteSingle(reg, value) => ErrorsRead(dev, s, reg, [value], more);
    case WriteMultiple(reg, values) => ErrorsRead(dev, s, reg, values, more);
  }

  lemma {:induction false} ReplyIsRead<S(!new)>(dev: Device<S>, s: S, ops: seq<Op>, more: seq<byte>)
    requires Honest(dev) && forall i :: 0 <= i < |ops| ==> IsOp(ops[i])
    ensures ParseReply(Reply(dev, s, ops) + more) == Perform(dev, s, ops).entries + ParseReply(more)
    decreases |ops|
  {
    if ops == [] {
      assert [] + more == more && [] + ParseReply(more) == ParseReply(more);
    } else {
      var op, p := ops[0], PerformOp(dev, s, ops[0]);
      var reply := OpReply(dev, s, op);
      if p.over {
        assert reply + [] == reply;
        OpRead(dev, s, op, more);
      } else {
        var later := Reply(dev, p.s, ops[1..]);
        Assoc(reply, later, more);
        OpRead(dev, s, op, later + more);
        ReplyIsRead(dev, p.s, ops[1..], more);
        Assoc(p.entries, Perform(dev, p.s, ops[1..]).entries, ParseReply(more));
      }
    }
  }

  /** For every sequence of builder calls and every honest device: the server performs exactly those reads and writes,
      and parsing its reply gives exactly the values read and the errors met, in order, up to the first failing read or
      discarding write.  Padding on the request or on the reply changes nothing. */
  lemma RoundTrip<S(!new)>(dev: Device<S>, s: S, ops: seq<Op>, k: nat, j: nat)
    requires Honest(dev) && forall i :: 0 <= i < |ops| ==> IsOp(ops[i])
    ensures
      var f := Process(dev, s, RequestBytes(ops) + Nops(k), Some([]));
      && f.s == Perform(dev, s, ops).s
      && f.response.Some?
      && ParseReply(f.response.value + Nops(j)) == Perform(dev, s, ops).entries
  {
    ServerPerforms(dev, s, ops, k, Some([]));
    assert [] + Reply(dev, s, ops) == Reply(dev, s, ops);
    ReplyIsRead(dev, s, ops, Nops(j));
    ParseNops(j);
    assert Perform(dev, s, ops).entries + [] == Perform(dev, s, ops).entries;
  }
}
