/** The server: one frame's subframes, executed in turn against a device. */
module MicroServer {
  import opened Bytes
  import opened Streams
  import opened Varuint
  import opened RegisterProtocol
  import opened Framing

  datatype WriteAction = Success | UnknownRegister | NotWriteable | DiscardRemaining

  /** What became of a tunnel subframe, which took the first `consumed` bytes offered and adds `reply` to a
      response. */
  datatype TunnelReply<S> = Refused | Handled(s: S, consumed: nat, reply: seq<byte>)

  /** The application's side, over a state of its own; the tunnels are part of that state. */
  datatype Device<!S> = Device(
    write: (S, nat, Value) -> (S, WriteAction),
    read: (S, nat, nat) -> ReadResult,
    clientToServer: (S, seq<byte>, Option<seq<byte>>) -> TunnelReply<S>,
    clientPollServer: (S, seq<byte>, Option<seq<byte>>) -> TunnelReply<S>,
    startFrame: S -> S,
    completeFrame: S -> (S, bool))

  datatype Stop = Malformed | Discarded | Missing | Unknown

  datatype Outcome<S> =
    | Next(s: S, rest: seq<byte>, response: Option<seq<byte>>)
    | Stopped(why: Stop, s: S, response: Option<seq<byte>>)

  function Emit(response: Option<seq<byte>>, b: seq<byte>): Option<seq<byte>> {
    if response == None then None else Some(response.value + b)
  }

  function WriteErrorOf(action: WriteAction): nat {
    if action == UnknownRegister then 1 else 2
  }

  /** `n` values for consecutive registers, taken from `b`. */
  function Writes<S>(dev: Device<S>, s: S, b: seq<byte>, typ: nat, reg: nat, n: nat,
                     response: Option<seq<byte>>): (o: Outcome<S>)
    ensures o.Next? ==> |o.rest| <= |b|
    decreases n
  {
    if n == 0 then Next(s, b, response)
    else
      match ReadValue(b, typ)
      case Got(v, rest) =>
        var (t, action) := dev.write(s, reg, v);
        (match action
         case DiscardRemaining => Stopped(Discarded, t, response)
         case Success => Writes(dev, t, rest, typ, Wrap32(reg + 1), n - 1, response)
         case _ => Writes(dev, t, rest, typ, Wrap32(reg + 1), n - 1,
                          Emit(response, ErrorBytes(WRITE_ERROR, reg, WriteErrorOf(action)))))
      case _ => Stopped(Malformed, s, response)
  }

  datatype ReadRun = AllRead(values: seq<Value>) | FailedAt(reg: nat, error: nat)

  /** `n` consecutive registers, up to the first that cannot be read. */
  function Reads<S>(dev: Device<S>, s: S, typ: nat, reg: nat, n: nat): (r: ReadRun)
    ensures r.AllRead? ==> |r.values| == n
    decreases n
  {
    if n == 0 then AllRead([])
    else
      match dev.read(s, reg, typ)
      case Bad(e) => FailedAt(reg, e)
      case Good(v) =>
        match Reads(dev, s, typ, Wrap32(reg + 1), n - 1)
        case AllRead(vs) => AllRead([v] + vs)
        case FailedAt(r, e) => FailedAt(r, e)
  }

  /** ProcessSubframeWrite and, with a response to write into, ProcessSubframeRead; `id` is the number above the
      base. */
  function WriteSubframe<S>(dev: Device<S>, s: S, id: nat, b: seq<byte>, response: Option<seq<byte>>): (o: Outcome<S>)
    ensures o.Next? ==> |o.rest| <= |b|
  {
    match ReadOperands(id % 4, b)
    case Got(v, rest) => Writes(dev, s, rest, id / 4, v.1, v.0, response)
    case _ => Stopped(Malformed, s, response)
  }

  function ReplyHead(id: nat, n: nat, reg: nat): seq<byte> {
    Encode(REPLY_BASE + id) + (if id % 4 == 0 then Encode(n) else []) + Encode(reg)
  }

  function ReadSubframe<S>(dev: Device<S>, s: S, id: nat, b: seq<byte>, response: Option<seq<byte>>): (o: Outcome<S>)
    ensures o.Next? ==> |o.rest| <= |b|
  {
    if response == None then Next(s, b, response)
    else
      match ReadOperands(id % 4, b)
      case Got(v, rest) =>
        (match Reads(dev, s, id / 4, v.1, v.0)
         case AllRead(vs) => Next(s, rest, Emit(response, ReplyHead(id, v.0, v.1) + Values(vs)))
         case FailedAt(reg, e) => Stopped(Malformed, s, Emit(response, ErrorBytes(READ_ERROR, reg, e))))
      case _ => Stopped(Malformed, s, response)
  }

  function Tunnelled<S>(r: TunnelReply<S>, s: S, b: seq<byte>, response: Option<seq<byte>>): (o: Outcome<S>)
    ensures o.Next? ==> |o.rest| <= |b|
  {
    match r
    case Refused => Stopped(Malformed, s, response)
    case Handled(t, consumed, reply) => Next(t, b[Min(consumed, |b|)..], Emit(response, reply))
  }

  function Subframe<S>(dev: Device<S>, s: S, b: seq<byte>, response: Option<seq<byte>>): (o: Outcome<S>)
    ensures o.Next? ==> |o.rest| < |b|
  {
    match Decode32(b)
    case Got(id, rest) => OfType(dev, s, id, rest, response)
    case _ => Stopped(Missing, s, response)
  }

  /** What follows the subframe number. */
  function OfType<S>(dev: Device<S>, s: S, id: nat, b: seq<byte>, response: Option<seq<byte>>): (o: Outcome<S>)
    ensures o.Next? ==> |o.rest| <= |b|
  {
    if id == CLIENT_TO_SERVER then Tunnelled(dev.clientToServer(s, b, response), s, b, response)
    else if id == CLIENT_POLL_SERVER then Tunnelled(dev.clientPollServer(s, b, response), s, b, response)
    else if id == 0x50 then Next(s, b, response)
    else if id < WRITE_BASE + 16 then WriteSubframe(dev, s, id - WRITE_BASE, b, response)
    else if READ_BASE <= id < READ_BASE + 16 then ReadSubframe(dev, s, id - READ_BASE, b, response)
    else Stopped(Unknown, s, response)
  }

  /** The device's state, the response, and why the frame was left, if it was. */
  datatype Final<S> = Final(s: S, response: Option<seq<byte>>, why: Option<Stop>)

  /** ProcessSubframes. */
  function Process<S>(dev: Device<S>, s: S, b: seq<byte>, response: Option<seq<byte>>): Final<S>
    decreases |b|
  {
    if b == [] then Final(s, response, None)
    else
      match Subframe(dev, s, b, response)
      case Next(t, rest, reply) => Process(dev, t, rest, reply)
      case Stopped(why, t, reply) => Final(t, reply, Some(why))
  }

  // ----- the class

  const BROADCAST: byte := 0x7f

  class Server<S> {
    const device: Device<S>
    var id: byte
    var state: S
    var writeOutstanding: bool
    var wrongId: nat
    var unknownSubframe: nat
    var missingSubframe: nat
    var malformedSubframe: nat
    var discards: nat

    constructor (device: Device<S>, state: S, id: byte)
      ensures this.device == device && this.state == state && this.id == id && !writeOutstanding
    {
      this.device := device;
      this.state := state;
      this.id := id;
      writeOutstanding := false;
      wrongId, unknownSubframe, missingSubframe, malformedSubframe, discards := 0, 0, 0, 0, 0;
    }

    /** The frame was left for this reason. */
    method Count(why: Stop)
      modifies this`unknownSubframe, this`missingSubframe, this`malformedSubframe, this`discards
      ensures unknownSubframe == Counted(old(unknownSubframe), why == Unknown)
      ensures missingSubframe == Counted(old(missingSubframe), why == Missing)
      ensures malformedSubframe == Counted(old(malformedSubframe), why == Malformed)
      ensures discards == Counted(old(discards), why == Discarded)
    {
      match why
      case Unknown => unknownSubframe := Counted(unknownSubframe, true);
      case Missing => missingSubframe := Counted(missingSubframe, true);
      case Malformed => malformedSubframe := Counted(malformedSubframe, true);
      case Discarded => discards := Counted(discards, true);
    }

    method ReadOperandsOf(encodedLength: nat, str: BufferReadStream) returns (num: Option<nat>, start: Option<nat>)
      requires str.Valid()
      modifies str
      ensures str.Valid()
      ensures match ReadOperands(encodedLength, old(str.Rest()))
              case Got(v, rest) => num == Some(v.0) && start == Some(v.1) && str.Rest() == rest
              case _ => num == None || start == None
    {
      num, start := Some(encodedLength), None;
      if encodedLength == 0 {
        num := FastReadVaruint32(str);
      }
      if num.Some? {
        start := FastReadVaruint32(str);
      }
    }

    method ProcessSubframeWrite(typeLength: nat, str: BufferReadStream, response: OStream, wanted: bool)
      returns (stop: Option<Stop>)
      requires str.Valid() && typeLength < 16
      modifies str, response, this`state
      ensures str.Valid()
      ensures Came(WriteSubframe(device, old(state), typeLength, old(str.Rest()), Response(old(response.data), wanted)),
                   str.Rest(), response.data, wanted, stop, old(response.data))
    {
      var num, start := ReadOperandsOf(typeLength % 4, str);
      if num == None || start == None {
        return Some(Malformed);
      }
      stop := WriteValues(typeLength / 4, num.value, start.value, str, response, wanted);
    }

    ghost predicate Came(o: Outcome<S>, rest: seq<byte>, data: seq<byte>, wanted: bool, stop: Option<Stop>,
                         was: seq<byte>)
      reads this
    {
      && state == o.s && o.response == Response(data, wanted) && (!wanted ==> data == was)
      && (if o.Next? then stop == None && rest == o.rest else stop == Some(o.why))
    }

    method WriteValues(typ: nat, n: nat, start: nat, str: BufferReadStream, response: OStream, wanted: bool)
      returns (stop: Option<Stop>)
      requires str.Valid() && typ <= 3
      modifies str, response, this`state
      ensures str.Valid()
      ensures Came(Writes(device, old(state), old(str.Rest()), typ, start, n, Response(old(response.data), wanted)),
                   str.Rest(), response.data, wanted, stop, old(response.data))
    {
      var currentRegister := start;
      ghost var whole := Writes(device, state, str.Rest(), typ, start, n, Response(response.data, wanted));
      for i := 0 to n
        invariant str.Valid() && (!wanted ==> response.data == old(response.data))
        invariant whole == Writes(device, state, str.Rest(), typ, currentRegister, n - i, Response(response.data, wanted))
      {
        var bits := str.FastReadScalar(SizeOf(typ));
        if bits == None {
          return Some(Malformed);
        }
        var (s, action) := device.write(state, currentRegister, Value(typ, bits.value));
        state := s;
        if action == DiscardRemaining {
          return Some(Discarded);
        }
        if action != Success && wanted {
          response.Write(ErrorBytes(WRITE_ERROR, currentRegister, WriteErrorOf(action)));
        }
        currentRegister := Wrap32(currentRegister + 1);
      }
      stop := None;
    }

    method ProcessSubframeRead(typeLength: nat, str: BufferReadStream, response: OStream, wanted: bool)
      returns (stop: Option<Stop>)
      requires str.Valid() && typeLength < 16
      modifies str, response
      ensures str.Valid()
      ensures Came(ReadSubframe(device, old(state), typeLength, old(str.Rest()), Response(old(response.data), wanted)),
                   str.Rest(), response.data, wanted, stop, old(response.data))
    {
      if !wanted {
        return None;
      }
      var encodedLength := typeLength % 4;
      var typ := typeLength / 4;
      var num, reg := ReadOperandsOf(encodedLength, str);
      if num == None || reg == None {
        return Some(Malformed);
      }
      var start := |response.data|;
      ghost var was := response.data;
      response.Write(ReplyHead(typeLength, num.value, reg.value));
      var failed := ReadValues(typ, num.value, reg.value, response);
      if failed.Some? {
        response.data := response.data[..start];
        assert response.data == was;
        response.Write(ErrorBytes(READ_ERROR, failed.value.0, failed.value.1));
        return Some(Malformed);
      }
      stop := None;
      Assoc(was, ReplyHead(typeLength, num.value, reg.value),
            Values(Reads(device, state, typ, reg.value, num.value).values));
    }

    /** Appends the values read; stops at the register that fails. */
    method ReadValues(typ: nat, n: nat, start: nat, response: OStream) returns (failed: Option<(nat, nat)>)
      modifies response
      ensures old(response.data) <= response.data
      ensures match Reads(device, state, typ, start, n)
              case AllRead(vs) => failed == None && response.data == old(response.data) + Values(vs)
              case FailedAt(reg, e) => failed == Some((reg, e))
    {
      ghost var was := response.data;
      ghost var whole := Reads(device, state, typ, start, n);
      var currentRegister := start;
      for i := 0 to n
        invariant was <= response.data
        invariant
          match Reads(device, state, typ, currentRegister, n - i)
          case AllRead(vs) => whole.AllRead? && response.data + Values(vs) == was + Values(whole.values)
          case FailedAt(reg, e) => whole == FailedAt(reg, e)
      {
        var result := device.read(state, currentRegister, typ);
        match result {
          case Good(v) =>
            ghost var later := Reads(device, state, typ, Wrap32(currentRegister + 1), n - i - 1);
            if later.AllRead? {
              assert ([v] + later.values)[1..] == later.values;
              Assoc(response.data, ValueBytes(v), Values(later.values));
            }
            response.Write(ValueBytes(v));
          case Bad(e) =>
            return Some((currentRegister, e));
        }
        currentRegister := Wrap32(currentRegister + 1);
      }
      failed := None;
    }

    /** One frame: whose it is, its subframes between the application's two hooks, and the reply, which goes back to
        where the frame came from. */
    method ProcessFrame(source: byte, dest: byte, payload: seq<byte>) returns (reply: Option<Packet>)
      modifies this
      ensures id == old(id)
      ensures dest != BROADCAST && dest != id % 128 ==>
                reply == None && state == old(state) && wrongId == Counted(old(wrongId), true)
                && writeOutstanding == old(writeOutstanding)
      ensures dest == BROADCAST || dest == id % 128 ==>
                var wanted := source >= 128 && !old(writeOutstanding);
                var f := Process(device, device.startFrame(old(state)), payload, Response([], wanted));
                var (s, accepted) := device.completeFrame(f.s);
                && state == s
                && (reply.Some? <==> accepted && wanted)
                && (reply.Some? ==> reply.value.source == id % 128 && reply.value.dest == source % 128
                                    && f.response == Some(reply.value.payload))
                && writeOutstanding == (old(writeOutstanding) || reply.Some?)
                && wrongId == Counted(old(wrongId), dest == BROADCAST)
                && unknownSubframe == Counted(old(unknownSubframe), f.why == Some(Unknown))
                && missingSubframe == Counted(old(missingSubframe), f.why == Some(Missing))
                && malformedSubframe == Counted(old(malformedSubframe), f.why == Some(Malformed))
                && discards == Counted(Counted(old(discards), f.why == Some(Discarded)), !accepted)
    {
      reply := None;
      if dest == BROADCAST || dest != id % 128 {
        wrongId := Counted(wrongId, true);
        if dest != BROADCAST {
          return;
        }
      }
      var needResponse := source >= 128 && !writeOutstanding;
      var response := new OStream();
      state := device.startFrame(state);
      ProcessSubframes(payload, response, needResponse);
      var (s, accepted) := device.completeFrame(state);
      state := s;
      if !accepted {
        discards := Counted(discards, true);
      } else if needResponse {
        reply := Some(Packet(id % 128, source % 128, response.data));
        writeOutstanding := true;
      }
    }

    method HandleWrite()
      modifies this`writeOutstanding
      ensures !writeOutstanding
    {
      writeOutstanding := false;
    }

    /** Subframe after subframe until the bytes run out or one cannot be handled. */
    method ProcessSubframes(subframes: seq<byte>, response: OStream, wanted: bool)
      modifies response, this`state, this`unknownSubframe, this`missingSubframe, this`malformedSubframe, this`discards
      ensures
        var f := Process(device, old(state), subframes, Response(old(response.data), wanted));
        && state == f.s && Response(response.data, wanted) == f.response
        && (!wanted ==> response.data == old(response.data))
        && unknownSubframe == Counted(old(unknownSubframe), f.why == Some(Unknown))
        && missingSubframe == Counted(old(missingSubframe), f.why == Some(Missing))
        && malformedSubframe == Counted(old(malformedSubframe), f.why == Some(Malformed))
        && discards == Counted(old(discards), f.why == Some(Discarded))
    {
      var stop := ProcessAll(subframes, response, wanted);
      if stop.Some? {
        Count(stop.value);
      }
    }

    method ProcessAll(subframes: seq<byte>, response: OStream, wanted: bool) returns (stop: Option<Stop>)
      modifies response, this`state
      ensures
        var f := Process(device, old(state), subframes, Response(old(response.data), wanted));
        && state == f.s && Response(response.data, wanted) == f.response && stop == f.why
        && (!wanted ==> response.data == old(response.data))
    {
      stop := None;
      var str := new BufferReadStream(subframes);
      ghost var f := Process(device, state, subframes, Response(response.data, wanted));
      while str.Remaining() > 0
        invariant str.Valid() && stop == None && (!wanted ==> response.data == old(response.data))
        invariant f == Process(device, state, str.Rest(), Response(response.data, wanted))
        decreases str.Remaining()
      {
        stop := ProcessSubframe(str, response, wanted);
        if stop.Some? {
          return;
        }
      }
    }

    method ProcessSubframe(str: BufferReadStream, response: OStream, wanted: bool) returns (stop: Option<Stop>)
      requires str.Valid()
      modifies str, response, this`state
      ensures str.Valid()
      ensures Came(Subframe(device, old(state), old(str.Rest()), Response(old(response.data), wanted)),
                   str.Rest(), response.data, wanted, stop, old(response.data))
    {
      var maybeSubframeType := FastReadVaruint32(str);
      if maybeSubframeType == None {
        return Some(Missing);
      }
      stop := Dispatch(maybeSubframeType.value, str, response, wanted);
    }

    method Dispatch(subframeType: nat, str: BufferReadStream, response: OStream, wanted: bool)
      returns (stop: Option<Stop>)
      requires str.Valid()
      modifies str, response, this`state
      ensures str.Valid()
      ensures Came(OfType(device, old(state), subframeType, old(str.Rest()), Response(old(response.data), wanted)),
                   str.Rest(), response.data, wanted, stop, old(response.data))
    {
      if subframeType == CLIENT_TO_SERVER {
        stop := Tunnel(device.clientToServer, str, response, wanted);
      } else if subframeType == CLIENT_POLL_SERVER {
        stop := Tunnel(device.clientPollServer, str, response, wanted);
      } else {
        stop := DispatchRegister(subframeType, str, response, wanted);
      }
    }

    method DispatchRegister(subframeType: nat, str: BufferReadStream, response: OStream, wanted: bool)
      returns (stop: Option<Stop>)
      requires str.Valid() && subframeType != CLIENT_TO_SERVER && subframeType != CLIENT_POLL_SERVER
      modifies str, response, this`state
      ensures str.Valid()
      ensures Came(OfType(device, old(state), subframeType, old(str.Rest()), Response(old(response.data), wanted)),
                   str.Rest(), response.data, wanted, stop, old(response.data))
    {
      if subframeType == 0x50 {
        stop := None;
      } else if subframeType < WRITE_BASE + 16 {
        stop := ProcessSubframeWrite(subframeType - WRITE_BASE, str, response, wanted);
      } else if READ_BASE <= subframeType < READ_BASE + 16 {
        stop := ProcessSubframeRead(subframeType - READ_BASE, str, response, wanted);
      } else {
        stop := Some(Unknown);
      }
    }

    method Tunnel(handle: (S, seq<byte>, Option<seq<byte>>) -> TunnelReply<S>, str: BufferReadStream, response: OStream,
                  wanted: bool)
      returns (stop: Option<Stop>)
      requires str.Valid()
      modifies str, response, this`state
      ensures str.Valid()
      ensures Came(Tunnelled(handle(old(state), old(str.Rest()), Response(old(response.data), wanted)), old(state),
                             old(str.Rest()), Response(old(response.data), wanted)),
                   str.Rest(), response.data, wanted, stop, old(response.data))
    {
      match handle(state, str.buffer[str.offset..], Response(response.data, wanted))
      case Refused =>
        stop := Some(Malformed);
      case Handled(s, consumed, reply) =>
        state := s;
        str.Ignore(consumed);
        if wanted {
          response.Write(reply);
        }
        stop := None;
    }
  }

  /** A counter of 32 bits. */
  function Counted(n: nat, hit: bool): nat {
    if hit then Wrap32(n + 1) else n
  }

  function Response(data: seq<byte>, wanted: bool): Option<seq<byte>> {
    if wanted then Some(data) else None
  }
}
