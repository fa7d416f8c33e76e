/** A server whose device comes with tunnels: whatever bytes a frame holds, the tunnels stay sound. */
module TunnelServer {
  import opened Bytes
  import opened Varuint
  import opened RegisterProtocol
  import opened MicroServer
  import Tunnel

  type World = Tunnel.World

  /** An application of its own state `A`, next to the tunnels. */
  datatype Application<!A> = Application(
    write: (A, nat, Value) -> (A, WriteAction),
    read: (A, nat, nat) -> ReadResult,
    startFrame: A -> A,
    completeFrame: A -> (A, bool))

  function Beside<A>(a: A, r: TunnelReply<World>): TunnelReply<(A, World)> {
    match r
    case Refused => Refused
    case Handled(w, consumed, reply) => Handled((a, w), consumed, reply)
  }

  /** The device a server sees: registers of the application, tunnel subframes of the tunnels. */
  function WithTunnels<A>(app: Application<A>, limits: Tunnel.Limits): Device<(A, World)> {
    Device(
      (s: (A, World), reg: nat, v: Value) => var (a, action) := app.write(s.0, reg, v); ((a, s.1), action),
      (s: (A, World), reg: nat, typ: nat) => app.read(s.0, reg, typ),
      (s: (A, World), b: seq<byte>, r: Option<seq<byte>>) => Beside(s.0, Tunnel.ClientToServer(limits, s.1, b, r)),
      (s: (A, World), b: seq<byte>, r: Option<seq<byte>>) => Beside(s.0, Tunnel.ClientPollServer(limits, s.1, b, r)),
      (s: (A, World)) => (app.startFrame(s.0), s.1),
      (s: (A, World)) => var (a, ok) := app.completeFrame(s.0); ((a, s.1), ok))
  }

  lemma {:induction false} WritesLeaveTunnels<A>(app: Application<A>, limits: Tunnel.Limits, s: (A, World),
                                                 b: seq<byte>,
                                                 typ: nat, reg: nat, n: nat, response: Option<seq<byte>>)
    ensures Writes(WithTunnels(app, limits), s, b, typ, reg, n, response).s.1 == s.1
    decreases n
  {
    if n > 0 && ReadValue(b, typ).Got? {
      var dev := WithTunnels(app, limits);
      var v, rest := ReadValue(b, typ).value, ReadValue(b, typ).rest;
      var (t, action) := dev.write(s, reg, v);
      assert t.1 == s.1;
      match action
      case DiscardRemaining =>
      case Success => WritesLeaveTunnels(app, limits, t, rest, typ, Wrap32(reg + 1), n - 1, response);
      case _ =>
        WritesLeaveTunnels(app, limits, t, rest, typ, Wrap32(reg + 1), n - 1,
                           Emit(response, ErrorBytes(WRITE_ERROR, reg, WriteErrorOf(action))));
    }
  }

  lemma ToServerKeepsTunnels<A>(app: Application<A>, limits: Tunnel.Limits, s: (A, World), b: seq<byte>,
                                response: Option<seq<byte>>)
    requires Tunnel.Inv(s.1)
    ensures Tunnel.Inv(Tunnelled(WithTunnels(app, limits).clientToServer(s, b, response), s, b, response).s.1)
  {
    var r := Tunnel.ClientToServer(limits, s.1, b, response);
    assert WithTunnels(app, limits).clientToServer(s, b, response) == Beside(s.0, r);
    if r.Handled? {
      Tunnel.ClientToServerKeepsInv(limits, s.1, b, response);
    }
  }

  lemma PollServerKeepsTunnels<A>(app: Application<A>, limits: Tunnel.Limits, s: (A, World), b: seq<byte>,
                                  response: Option<seq<byte>>)
    requires Tunnel.Inv(s.1)
    ensures Tunnel.Inv(Tunnelled(WithTunnels(app, limits).clientPollServer(s, b, response), s, b, response).s.1)
  {
    var r := Tunnel.ClientPollServer(limits, s.1, b, response);
    assert WithTunnels(app, limits).clientPollServer(s, b, response) == Beside(s.0, r);
    if r.Handled? {
      Tunnel.ClientPollServerKeepsInv(limits, s.1, b, response);
    }
  }

  lemma WriteLeavesTunnels<A>(app: Application<A>, limits: Tunnel.Limits, s: (A, World), id: nat, b: seq<byte>,
                              response: Option<seq<byte>>)
    ensures WriteSubframe(WithTunnels(app, limits), s, id, b, response).s.1 == s.1
  {
    var v := ReadOperands(id % 4, b);
    if v.Got? {
      WritesLeaveTunnels(app, limits, s, v.rest, id / 4, v.value.1, v.value.0, response);
    }
  }

  lemma ReadLeavesTunnels<A>(app: Application<A>, limits: Tunnel.Limits, s: (A, World), id: nat, b: seq<byte>,
                             response: Option<seq<byte>>)
    ensures ReadSubframe(WithTunnels(app, limits), s, id, b, response).s.1 == s.1
  {
  }

  lemma OfTypeKeepsTunnels<A>(app: Application<A>, limits: Tunnel.Limits, s: (A, World), id: nat, b: seq<byte>,
                              response: Option<seq<byte>>)
    requires Tunnel.Inv(s.1)
    ensures Tunnel.Inv(OfType(WithTunnels(app, limits), s, id, b, response).s.1)
  {
    if id == CLIENT_TO_SERVER {
      ToServerKeepsTunnels(app, limits, s, b, response);
    } else if id == CLIENT_POLL_SERVER {
      PollServerKeepsTunnels(app, limits, s, b, response);
    } else {
      RegistersLeaveTunnels(app, limits, s, id, b, response);
    }
  }

  lemma RegistersLeaveTunnels<A>(app: Application<A>, limits: Tunnel.Limits, s: (A, World), id: nat, b: seq<byte>,
                                 response: Option<seq<byte>>)
    requires id != CLIENT_TO_SERVER && id != CLIENT_POLL_SERVER
    ensures OfType(WithTunnels(app, limits), s, id, b, response).s.1 == s.1
  {
    if id == 0x50 {
    } else if id < WRITE_BASE + 16 {
      WriteLeavesTunnels(app, limits, s, id - WRITE_BASE, b, response);
    } else if READ_BASE <= id < READ_BASE + 16 {
      ReadLeavesTunnels(app, limits, s, id - READ_BASE, b, response);
    }
  }

  lemma SubframeKeepsTunnels<A>(app: Application<A>, limits: Tunnel.Limits, s: (A, World), b: seq<byte>,
                                response: Option<seq<byte>>)
    requires Tunnel.Inv(s.1)
    ensures Tunnel.Inv(Subframe(WithTunnels(app, limits), s, b, response).s.1)
  {
    if Decode32(b).Got? {
      OfTypeKeepsTunnels(app, limits, s, Decode32(b).value, Decode32(b).rest, response);
    }
  }

  /** For every frame, well formed or not, every application and every script of callbacks: processing the frame keeps
      what the tunnels have accepted, delivered and hold in order, their bound, and the flag. */
  lemma {:induction false} ProcessKeepsTunnels<A>(app: Application<A>, limits: Tunnel.Limits, s: (A, World),
                                                  b: seq<byte>,
                                                  response: Option<seq<byte>>)
    requires Tunnel.Inv(s.1)
    ensures Tunnel.Inv(Process(WithTunnels(app, limits), s, b, response).s.1)
    decreases |b|
  {
    if b != [] {
      var dev := WithTunnels(app, limits);
      SubframeKeepsTunnels(app, limits, s, b, response);
      match Subframe(dev, s, b, response)
      case Next(t, rest, reply) => ProcessKeepsTunnels(app, limits, t, rest, reply);
      case Stopped(_, _, _) =>
    }
  }
}
