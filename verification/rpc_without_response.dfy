/** Requests that get no response, as from a client that asks for none: what a read subframe then comes to. */
module RpcWithoutResponse {
  import opened Bytes
  import opened Varuint
  import opened RegisterProtocol
  import opened Register
  import opened MicroServer
  import opened Rpc

  /** With no response to write into, a read subframe leaves state and response alone, and goes on right behind its
      number: its operands are taken for the subframes that follow. */
  lemma ReadIsItsNumber<S>(dev: Device<S>, s: S, b: seq<byte>)
    requires Decode32(b).Got? && READ_BASE <= Decode32(b).value < READ_BASE + 16
    ensures Subframe(dev, s, b, None) == Next(s, Decode32(b).rest, None)
    ensures Process(dev, s, b, None) == Process(dev, s, Decode32(b).rest, None)
  {
    assert b != [];
  }

  /** Numbers that, taken for subframes, do nothing: padding, and reads again. */
  predicate PassedOver(m: nat) {
    m == 0x50 || READ_BASE <= m < READ_BASE + 16
  }

  lemma NumberIsPassedOver<S>(dev: Device<S>, s: S, m: nat, rest: seq<byte>)
    requires PassedOver(m)
    ensures Process(dev, s, Encode(m) + rest, None) == Process(dev, s, rest, None)
  {
    Decode32AfterEncode(m, rest);
  }

  function CountOf(op: Op): nat {
    match op
    case ReadMultiple(_, count, _) => count
    case WriteMultiple(_, values) => |values|
    case _ => 1
  }

  lemma ReadLeavesOperands<S>(dev: Device<S>, s: S, op: Op, rest: seq<byte>)
    requires IsOp(op) && Reading(op)
    ensures Process(dev, s, OpBytes(op) + rest, None) == Process(dev, s, Operands(CountOf(op), op.reg) + rest, None)
  {
    HeadRead(READ_BASE, op.typ, CountOf(op), op.reg, rest);
    ReadIsItsNumber(dev, s, OpBytes(op) + rest);
  }

  /** The numbers a read is written with, its count unless that is part of the subframe number, and its register. */
  predicate Harmless(op: Op) {
    (ShortCount(CountOf(op)) == 0 ==> PassedOver(CountOf(op))) && PassedOver(op.reg)
  }

  lemma HarmlessIsPassedOver<S>(dev: Device<S>, s: S, op: Op, rest: seq<byte>)
    requires IsOp(op) && Reading(op) && Harmless(op)
    ensures Process(dev, s, OpBytes(op) + rest, None) == Process(dev, s, rest, None)
  {
    ReadLeavesOperands(dev, s, op, rest);
    NumberIsPassedOver(dev, s, op.reg, rest);
    if ShortCount(CountOf(op)) == 0 {
      Assoc(Encode(CountOf(op)), Encode(op.reg), rest);
      NumberIsPassedOver(dev, s, CountOf(op), Encode(op.reg) + rest);
    }
  }

  // ----- whole requests

  function WritesOf(ops: seq<Op>): seq<Op> {
    if ops == [] then []
    else (if ops[0].ReadSingle? || ops[0].ReadMultiple? then [] else [ops[0]]) + WritesOf(ops[1..])
  }

  /** A request whose reads are all harmless performs its writes, in order, and nothing else. */
  lemma {:induction false} OnlyWrites<S>(dev: Device<S>, s: S, ops: seq<Op>, k: nat)
    requires forall i :: 0 <= i < |ops| ==> IsOp(ops[i]) && (Reading(ops[i]) ==> Harmless(ops[i]))
    ensures
      var f, p := Process(dev, s, RequestBytes(ops) + Nops(k), None), Perform(dev, s, WritesOf(ops));
      f.s == p.s && f.response == None && (f.why == None <==> !p.over)
    decreases |ops|
  {
    if ops == [] {
      assert [] + Nops(k) == Nops(k);
      NopsDoNothing(dev, s, k, None);
    } else {
      var op, rest := ops[0], RequestBytes(ops[1..]) + Nops(k);
      Assoc(OpBytes(op), RequestBytes(ops[1..]), Nops(k));
      if Reading(op) {
        assert WritesOf(ops) == WritesOf(ops[1..]);
        HarmlessIsPassedOver(dev, s, op, rest);
        OnlyWrites(dev, s, ops[1..], k);
      } else {
        assert WritesOf(ops)[0] == op && WritesOf(ops)[1..] == WritesOf(ops[1..]);
        OpDoes(dev, s, op, rest, None);
        OpIsNotEmpty(op);
        if !PerformOp(dev, s, op).over {
          OnlyWrites(dev, PerformOp(dev, s, op).s, ops[1..], k);
        }
      }
    }
  }

  // ----- a read that is not harmless

  /** A device that counts the writes it gets. */
  function Counter(): Device<int> {
    Device((s: int, reg: nat, v: Value) => (s + 1, Success),
           (s: int, reg: nat, typ: nat) => Bad(1),
           (s: int, b: seq<byte>, r: Option<seq<byte>>) => Refused,
           (s: int, b: seq<byte>, r: Option<seq<byte>>) => Refused,
           (s: int) => s,
           (s: int) => (s, true))
  }

  lemma {:induction false} WritesCount(s: int, b: seq<byte>, typ: nat, reg: nat, n: nat, response: Option<seq<byte>>)
    ensures Writes(Counter(), s, b, typ, reg, n, response).s >= s
    ensures n > 0 && |b| >= 4 ==> Writes(Counter(), s, b, typ, reg, n, response).s > s
    decreases n
  {
    if n > 0 && ReadValue(b, typ).Got? {
      WritesCount(s + 1, ReadValue(b, typ).rest, typ, Wrap32(reg + 1), n - 1, response);
    }
  }

  lemma {:induction false} CountGrows(s: int, b: seq<byte>, response: Option<seq<byte>>)
    ensures Process(Counter(), s, b, response).s >= s
    ensures b != [] ==> Process(Counter(), s, b, response).s >= Subframe(Counter(), s, b, response).s
    decreases |b|
  {
    if b != [] {
      var o := Subframe(Counter(), s, b, response);
      SubframeCounts(s, b, response);
      if o.Next? {
        CountGrows(o.s, o.rest, o.response);
      }
    }
  }

  lemma WriteCounts(s: int, id: nat, b: seq<byte>, response: Option<seq<byte>>)
    ensures WriteSubframe(Counter(), s, id, b, response).s >= s
  {
    var v := ReadOperands(id % 4, b);
    if v.Got? {
      WritesCount(s, v.rest, id / 4, v.value.1, v.value.0, response);
    }
  }

  lemma OfTypeCounts(s: int, id: nat, b: seq<byte>, response: Option<seq<byte>>)
    ensures OfType(Counter(), s, id, b, response).s >= s
  {
    if id < 16 {
      WriteCounts(s, id, b, response);
    }
  }

  lemma SubframeCounts(s: int, b: seq<byte>, response: Option<seq<byte>>)
    ensures Subframe(Counter(), s, b, response).s >= s
  {
    var id := Decode32(b);
    if id.Got? {
      OfTypeCounts(s, id.value, id.rest, response);
    }
  }

  /** A number below 16 is a write: it writes something as soon as its operands and four more bytes are there. */
  lemma NumberWrites(m: nat, b: seq<byte>)
    requires m < 16 && ReadOperands(m % 4, b).Got?
    requires ReadOperands(m % 4, b).value.0 > 0 && |ReadOperands(m % 4, b).rest| >= 4
    ensures Process(Counter(), 0, Encode(m) + b, None).s > 0
  {
    var v := ReadOperands(m % 4, b);
    Decode32AfterEncode(m, b);
    WritesCount(0, v.rest, m / 4, v.value.1, v.value.0, None);
    CountGrows(0, Encode(m) + b, None);
  }

  /** Any other number that is not passed over ends the frame. */
  lemma NumberEnds(m: nat, b: seq<byte>)
    requires 16 <= m < TWO32 && !PassedOver(m)
    ensures Process(Counter(), 0, Encode(m) + b, None).s == 0
  {
    Decode32AfterEncode(m, b);
  }

  /** A write of a zero to register 0. */
  const ONE_WRITE: seq<byte> := [1, 0, 0]

  lemma OneWriteCounts()
    ensures Process(Counter(), 0, ONE_WRITE, None).s == 1
  {
    var b: seq<byte> := [0, 0];
    assert Encode(1) == [1] && ONE_WRITE == Encode(1) + b;
    Decode32AfterEncode(1, b);
    assert Encode(0) == [0] && b == Encode(0) + [0];
    Decode32AfterEncode(0, [0]);
    var v: seq<byte> := [0];
    assert v[..1] == v && v[1..] == [];
    assert ReadValue(v, 0) == Got(Value(0, FromLE(v)), []);
    assert Writes(Counter(), 0, v, 0, 0, 1, None) == Next(1, [], None);
  }

  /** Padding taken for the operands of a write. */
  lemma NopsAreOperands(m: nat)
    requires m < 16
    ensures
      var v := ReadOperands(m % 4, Nops(16));
      v.Got? && v.value.0 > 0 && |v.rest| >= 4
  {
    assert Nops(16) == [NOP] + Nops(15) && Nops(15) == [NOP] + Nops(14) && Nops(14) == [NOP] + Nops(13);
    NopIsRead(Nops(15));
    NopIsRead(Nops(14));
    NopsLength(14);
  }

  lemma {:induction false} NopsLength(k: nat)
    ensures |Nops(k)| == k
  {
    if k > 0 {
      NopsLength(k - 1);
    }
  }

  /** What is to follow for the damage to show. */
  lemma HarmfulShows(op: Op) returns (rest: seq<byte>)
    requires IsOp(op) && Reading(op) && !Harmless(op)
    ensures Process(Counter(), 0, OpBytes(op) + rest, None).s != Process(Counter(), 0, rest, None).s
  {
    rest := OperandsShow(CountOf(op), op.reg);
    ReadLeavesOperands(Counter(), 0, op, rest);
  }

  lemma OperandsShow(n: nat, reg: nat) returns (rest: seq<byte>)
    requires n < TWO32 && reg < TWO32 && n > 0
    requires !(ShortCount(n) == 0 ==> PassedOver(n)) || !PassedOver(reg)
    ensures Process(Counter(), 0, Operands(n, reg) + rest, None).s != Process(Counter(), 0, rest, None).s
  {
    if ShortCount(n) == 0 && !PassedOver(n) {
      rest := CountShows(n, reg);
      Assoc(Encode(n), Encode(reg), rest);
    } else {
      rest := RegShows(reg);
      if ShortCount(n) == 0 {
        Assoc(Encode(n), Encode(reg), rest);
        NumberIsPassedOver(Counter(), 0, n, Encode(reg) + rest);
      } else {
        assert Operands(n, reg) == Encode(reg);
      }
    }
  }

  lemma RegShows(reg: nat) returns (rest: seq<byte>)
    requires reg < TWO32 && !PassedOver(reg)
    ensures Process(Counter(), 0, Encode(reg) + rest, None).s != Process(Counter(), 0, rest, None).s
  {
    if reg < 16 {
      rest := Nops(16);
      NopsDoNothing(Counter(), 0, 16, None);
      NopsAreOperands(reg);
      NumberWrites(reg, rest);
    } else {
      rest := ONE_WRITE;
      OneWriteCounts();
      NumberEnds(reg, rest);
    }
  }

  lemma CountShows(n: nat, reg: nat) returns (rest: seq<byte>)
    requires 4 <= n < TWO32 && !PassedOver(n) && reg < TWO32
    ensures Process(Counter(), 0, Encode(n) + (Encode(reg) + rest), None).s != Process(Counter(), 0, rest, None).s
  {
    OneWriteCounts();
    NopsDoNothing(Counter(), 0, 16, None);
    if n >= 16 {
      rest := ONE_WRITE;
      NumberEnds(n, Encode(reg) + rest);
    } else if n % 4 == 0 && reg == 0 {
      rest := ONE_WRITE;
      NothingIsWritten(n);
    } else {
      rest := Nops(16);
      NopsLength(16);
      Decode32AfterEncode(reg, rest);
      NopsAreOperands(0);
      NumberWrites(n, Encode(reg) + rest);
    }
  }

  /** A write of no values from the register that the next write's number is taken for: that write is lost. */
  lemma NothingIsWritten(n: nat)
    requires 4 <= n < 16 && n % 4 == 0
    ensures Process(Counter(), 0, Encode(n) + (Encode(0) + ONE_WRITE), None).s == 0
  {
    var b: seq<byte> := [0, 0];
    Decode32AfterEncode(n, Encode(0) + ONE_WRITE);
    Decode32AfterEncode(0, ONE_WRITE);
    assert Encode(1) == [1] && ONE_WRITE == Encode(1) + b;
    Decode32AfterEncode(1, b);
    assert Subframe(Counter(), 0, Encode(n) + (Encode(0) + ONE_WRITE), None) == Next(0, b, None);
    assert Encode(0) == [0] && b == Encode(0) + [0];
    Decode32AfterEncode(0, [0]);
    var z: seq<byte> := [0];
    assert z == Encode(0) + [];
    Decode32AfterEncode(0, []);
    assert ReadOperands(0, z) == Short;
  }

  /** A read leaves the rest of its frame as it would be without it, for every device and whatever follows, if and only
      if its numbers are harmless. */
  lemma ReadIsTransparentIff(op: Op)
    requires IsOp(op) && Reading(op)
    ensures Harmless(op) <==>
            forall dev: Device<int>, s: int, rest: seq<byte> ::
              Process(dev, s, OpBytes(op) + rest, None).s == Process(dev, s, rest, None).s
  {
    if Harmless(op) {
      forall dev: Device<int>, s: int, rest: seq<byte>
        ensures Process(dev, s, OpBytes(op) + rest, None).s == Process(dev, s, rest, None).s
      {
        HarmlessIsPassedOver(dev, s, op, rest);
      }
    } else {
      var rest := HarmfulShows(op);
    }
  }

  lemma TwoReads()
    ensures RequestBytes([ReadSingle(1, 0), ReadSingle(2, 0)]) == [0x11, 1, 0x11, 2]
  {
    var ops := [Op.ReadSingle(1, 0), Op.ReadSingle(2, 0)];
    assert ops[1..] == [Op.ReadSingle(2, 0)] && ops[1..][1..] == [];
    assert Encode(0x11) == [0x11] && Encode(1) == [1] && Encode(2) == [2];
    assert OpBytes(ops[0]) == [0x11, 1] && OpBytes(ops[1]) == [0x11, 2];
  }

  /** Two reads come to write a register that no one named. */
  lemma ReadsBecomeWrites<S>(dev: Device<S>, s: S)
    ensures
      Process(dev, s, RequestBytes([ReadSingle(1, 0), ReadSingle(2, 0)]), None).s == dev.write(s, 0x11, Value(0, 2)).0
  {
    TwoReads();
    var b: seq<byte> := [0x11, 1, 0x11, 2];
    var b1: seq<byte> := [1, 0x11, 2];
    assert b[1..] == b1 && b1[1..] == [0x11, 2] && b1[1..][1..] == [2];
    assert Subframe(dev, s, b, None) == Next(s, b1, None);
    assert ReadOperands(1, b1[1..]) == Got((1, 0x11), [2]);
    assert ([2 as byte])[..1] == [2] && FromLE([2]) == 2 && ([2 as byte])[1..] == [];
    var (t, action) := dev.write(s, 0x11, Value(0, 2));
  }
}
