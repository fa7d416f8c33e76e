/** Tunnelled streams: bytes from the client are held per stream until a reader takes them; callbacks may call back
    in. */
module Tunnel {
  import opened Bytes
  import opened Varuint
  import opened RegisterProtocol
  import opened MicroServer

  const CAPACITY := 128

  /** One stream: the bytes held, the size of the read that waits (0 for none), the bytes of the write that waits; and,
      to state what becomes of them, all bytes accepted from the client and all handed to readers so far, all writes
      begun, and of each one that was answered what was said of it to the client. */
  datatype Stream = Stream(id: nat, held: seq<byte>, wanted: nat, writing: seq<byte>, accepted: seq<byte>,
                           delivered: seq<byte>, writes: seq<seq<byte>>, said: seq<seq<byte>>)

  /** What a callback may do. */
  datatype Call = ReadSome(stream: nat, size: nat) | WriteSome(stream: nat, data: seq<byte>)

  /** All streams, the flag that makes Poll look at them, and what each callback to come is going to do. */
  datatype World = World(streams: seq<Stream>, anythingToDo: bool, script: seq<seq<Call>>)

  function Set(w: World, i: nat, s: Stream): World
    requires i < |w.streams|
  {
    w.(streams := w.streams[i := s])
  }

  // ----- the calls

  /** A second call while one waits is a failed assertion. */
  predicate Legal(w: World, c: Call) {
    c.stream < |w.streams| &&
    if c.ReadSome? then w.streams[c.stream].wanted == 0 else w.streams[c.stream].writing == []
  }

  function Do(w: World, c: Call): (t: World)
    requires Legal(w, c)
    ensures |t.streams| == |w.streams|
  {
    var s := w.streams[c.stream];
    match c
    case ReadSome(i, size) =>
      Set(w, i, s.(wanted := size)).(anythingToDo := w.anythingToDo || (size > 0 && s.held != []))
    case WriteSome(i, data) => Set(w, i, s.(writing := data, writes := if data == [] then s.writes else s.writes + [data]))
  }

  /** A callback's calls in turn, up to one that is not legal. */
  function DoAll(w: World, calls: seq<Call>): (t: World)
    ensures |t.streams| == |w.streams|
    decreases |calls|
  {
    if calls == [] || !Legal(w, calls[0]) then w else DoAll(Do(w, calls[0]), calls[1..])
  }

  function Callback(w: World): (t: World)
    ensures |t.streams| == |w.streams|
  {
    if w.script == [] then w else DoAll(w.(script := w.script[1..]), w.script[0])
  }

  /** Whether DoReadTransfer has anything to hand over. */
  predicate Ready(s: Stream) {
    s.held != [] && s.wanted > 0
  }

  function Transferred(s: Stream): Stream {
    var n := Min(s.wanted, |s.held|);
    s.(delivered := s.delivered + s.held[..n], held := s.held[n..], wanted := 0)
  }

  /** DoReadTransfer. */
  function Transfer(w: World, i: nat): (t: World)
    requires i < |w.streams|
    ensures |t.streams| == |w.streams|
  {
    if Ready(w.streams[i]) then Callback(Set(w, i, Transferred(w.streams[i]))) else w
  }

  /** Poll's loop from stream `i` on. */
  function PollFrom(w: World, i: nat, allDone: bool): (r: (World, bool))
    requires i <= |w.streams|
    ensures |r.0.streams| == |w.streams|
    decreases |w.streams| - i
  {
    if i == |w.streams| then (w, allDone)
    else
      var t := Transfer(w, i);
      PollFrom(t, i + 1, allDone && !Ready(w.streams[i]))
  }

  function Poll(w: World): (t: World)
    ensures |t.streams| == |w.streams|
  {
    if !w.anythingToDo then w
    else
      var (t, allDone) := PollFrom(w, 0, true);
      if allDone then t.(anythingToDo := false) else t
  }

  function FindTunnel(streams: seq<Stream>, id: nat): (r: Option<nat>)
    ensures r.Some? ==> r.value < |streams| && streams[r.value].id == id
    ensures r == None ==> forall i :: 0 <= i < |streams| ==> streams[i].id != id
  {
    if streams == [] then None
    else if streams[0].id == id then Some(0)
    else match FindTunnel(streams[1..], id) case Some(i) => Some(i + 1) case None => None
  }

  /** More than fits is not taken at all. */
  function Accepted(s: Stream, data: seq<byte>): Stream {
    if |data| > CAPACITY - |s.held| then s else s.(held := s.held + data, accepted := s.accepted + data)
  }

  /** The datagram's maximum size and the size of the response buffer. */
  datatype Limits = Limits(maxSize: nat, bufferSize: nat)

  const NEEDED_OVERHEAD := 23

  /** How much of a pending write a response can take; negative when it has no room at all. */
  function ToCopy(limits: Limits, most: nat, written: nat): int {
    Min(limits.maxSize - NEEDED_OVERHEAD, Min(most, limits.bufferSize - written - NEEDED_OVERHEAD))
  }

  /** The server's side of the stream: what it has to say, and the writer's callback when it said anything.  The size is
      written as an unsigned 32-bit number. */
  function Respond(limits: Limits, w: World, i: nat, channel: nat, most: nat, response: seq<byte>)
    : (r: (World, seq<byte>))
    requires i < |w.streams|
    ensures |r.0.streams| == |w.streams|
  {
    var head := Encode(0x41) + Encode(channel);
    var n := ToCopy(limits, Min(most, |w.streams[i].writing|), |response| + |head|);
    var size := Encode(n % 0x1_0000_0000);
    if n > 0 then (Callback(Set(w, i, Answered(w.streams[i], n))), head + size + w.streams[i].writing[..n])
    else (w, head + size)
  }

  /** The pending write, answered with its first `n` bytes. */
  function Answered(s: Stream, n: nat): Stream
    requires n <= |s.writing|
  {
    s.(writing := [], said := s.said + [s.writing[..n]])
  }

  /** ProcessSubframeClientToServer: the bytes of an overrun stay where they are, to be read as the next subframe. */
  function ClientToServer(limits: Limits, w: World, b: seq<byte>, response: Option<seq<byte>>): TunnelReply<World> {
    match ReadTwo(b)
    case Got(v, rest) =>
      if |rest| < v.1 then Refused
      else
        (match FindTunnel(w.streams, v.0)
         case None => Refused
         case Some(i) =>
           var data := rest[..v.1];
           var s := w.streams[i];
           var overrun := v.1 > CAPACITY - |s.held|;
           var t := Transfer(Set(w, i, Accepted(s, data)), i).(anythingToDo := true);
           var consumed := |b| - |rest| + (if overrun then 0 else v.1);
           match response
           case None => Handled(t, consumed, [])
           case Some(r) =>
             var (u, reply) := Respond(limits, t, i, v.0, |t.streams[i].writing|, r);
             Handled(u, consumed, reply))
    case _ => Refused
  }

  /** ProcessSubframeClientPollServer. */
  function ClientPollServer(limits: Limits, w: World, b: seq<byte>, response: Option<seq<byte>>): TunnelReply<World> {
    match ReadTwo(b)
    case Got(v, rest) =>
      (match FindTunnel(w.streams, v.0)
       case None => Refused
       case Some(i) =>
         match response
         case None => Handled(w, |b| - |rest|, [])
         case Some(r) =>
           var (u, reply) := Respond(limits, w, i, v.0, v.1, r);
           Handled(u, |b| - |rest|, reply))
    case _ => Refused
  }

  function ReadTwo(b: seq<byte>): (r: Read<(nat, nat)>)
    ensures r.Got? ==> |r.rest| <= |b|
  {
    var (channel, b1) :- Decode32(b);
    var (n, b2) :- Decode32(b1);
    Got((channel, n), b2)
  }

  // ----- what holds at every moment, even inside callbacks

  ghost predicate StreamInv(s: Stream) {
    s.delivered + s.held == s.accepted && |s.held| <= CAPACITY
  }

  ghost predicate Conserved(w: World) {
    forall i :: 0 <= i < |w.streams| ==> StreamInv(w.streams[i])
  }

  /** `t` came from `w` by calls alone: what is held, accepted and delivered is as before, and no wake-up is lost. */
  ghost predicate CalledFrom(w: World, t: World) {
    && |t.streams| == |w.streams|
    && (w.anythingToDo ==> t.anythingToDo)
    && forall i :: 0 <= i < |w.streams| ==> CalledStream(w.streams[i], t.streams[i]) && WokenFor(w, t, i)
  }

  ghost predicate CalledStream(s: Stream, t: Stream) {
    t.id == s.id && t.held == s.held && t.accepted == s.accepted && t.delivered == s.delivered
  }

  /** A stream that became ready has set the flag. */
  ghost predicate WokenFor(w: World, t: World, i: nat)
    requires i < |w.streams| == |t.streams|
  {
    Ready(t.streams[i]) ==> t.anythingToDo || Ready(w.streams[i])
  }

  lemma {:induction false} DoAllCalls(w: World, calls: seq<Call>)
    ensures CalledFrom(w, DoAll(w, calls))
    decreases |calls|
  {
    if calls != [] && Legal(w, calls[0]) {
      var t := Do(w, calls[0]);
      DoAllCalls(t, calls[1..]);
      var u := DoAll(w, calls);
      forall i | 0 <= i < |w.streams| ensures CalledStream(w.streams[i], u.streams[i]) && WokenFor(w, u, i) {
        assert CalledStream(t.streams[i], u.streams[i]) && WokenFor(t, u, i);
      }
    }
  }

  lemma CallbackCalls(w: World)
    ensures CalledFrom(w, Callback(w))
  {
    if w.script != [] {
      DoAllCalls(w.(script := w.script[1..]), w.script[0]);
      var v := w.(script := w.script[1..]);
      assert CalledFrom(v, Callback(w));
      forall i | 0 <= i < |w.streams| ensures CalledStream(w.streams[i], Callback(w).streams[i]) && WokenFor(w, Callback(w), i) {
        assert CalledStream(v.streams[i], Callback(w).streams[i]) && WokenFor(v, Callback(w), i);
      }
    }
  }

  /** No wake-up is lost: while any stream has data and a reader, Poll will look. */
  ghost predicate NoneForgotten(w: World) {
    forall i :: 0 <= i < |w.streams| && Ready(w.streams[i]) ==> w.anythingToDo
  }

  ghost predicate Inv(w: World) {
    Conserved(w) && NoneForgotten(w)
  }

  /** Stream `i` apart, nothing is forgotten. */
  ghost predicate NoneElseForgotten(w: World, i: nat) {
    forall j :: 0 <= j < |w.streams| && j != i && Ready(w.streams[j]) ==> w.anythingToDo
  }

  lemma CalledKeeps(w: World, t: World)
    requires CalledFrom(w, t) && Inv(w)
    ensures Inv(t)
  {
    forall i | 0 <= i < |t.streams| ensures StreamInv(t.streams[i]) && (Ready(t.streams[i]) ==> t.anythingToDo) {
      assert StreamInv(w.streams[i]) && CalledStream(w.streams[i], t.streams[i]) && WokenFor(w, t, i);
    }
  }

  /** Handing over keeps everything, and whatever else was ready still has its flag. */
  lemma TransferKeeps(w: World, i: nat)
    requires Conserved(w) && i < |w.streams| && NoneElseForgotten(w, i)
    ensures Conserved(Transfer(w, i)) && |Transfer(w, i).streams| == |w.streams|
    ensures Ready(w.streams[i]) || w.anythingToDo ==> NoneForgotten(Transfer(w, i))
    ensures w.anythingToDo ==> Transfer(w, i).anythingToDo
    ensures Transfer(w, i).(anythingToDo := true, script := []) == w.(anythingToDo := true, script := []) || Ready(w.streams[i])
    ensures NoneForgotten(Transfer(w, i).(anythingToDo := true))
  {
    var s := w.streams[i];
    assert StreamInv(s);
    if Ready(s) {
      var n := Min(s.wanted, |s.held|);
      assert s.held == s.held[..n] + s.held[n..];
      Assoc(s.delivered, s.held[..n], s.held[n..]);
      var v := Set(w, i, Transferred(s));
      forall j | 0 <= j < |v.streams| ensures StreamInv(v.streams[j]) && (Ready(v.streams[j]) ==> v.anythingToDo) {
        assert StreamInv(w.streams[j]);
      }
      CallbackCalls(v);
      CalledKeeps(v, Callback(v));
    }
  }

  lemma {:induction false} PollKeeps(w: World, i: nat, allDone: bool)
    requires Inv(w) && w.anythingToDo && i <= |w.streams|
    requires allDone ==> forall j :: 0 <= j < i ==> !Ready(w.streams[j])
    ensures
      var (t, done) := PollFrom(w, i, allDone);
      Inv(t) && t.anythingToDo && |t.streams| == |w.streams|
      && (done ==> forall j :: 0 <= j < |t.streams| ==> !Ready(t.streams[j]))
    decreases |w.streams| - i
  {
    if i < |w.streams| {
      TransferKeeps(w, i);
      PollKeeps(Transfer(w, i), i + 1, allDone && !Ready(w.streams[i]));
    }
  }

  /** Poll clears the flag only when no stream is ready. */
  lemma PollKeepsInv(w: World)
    requires Inv(w)
    ensures Inv(Poll(w)) && |Poll(w).streams| == |w.streams|
    ensures w.anythingToDo && !Poll(w).anythingToDo ==> forall i :: 0 <= i < |w.streams| ==> !Ready(Poll(w).streams[i])
  {
    if w.anythingToDo {
      PollKeeps(w, 0, true);
    }
  }

  lemma RespondKeepsInv(limits: Limits, w: World, i: nat, channel: nat, most: nat, response: seq<byte>)
    requires Inv(w) && i < |w.streams|
    ensures Inv(Respond(limits, w, i, channel, most, response).0)
  {
    var n := ToCopy(limits, Min(most, |w.streams[i].writing|), |response| + |Encode(0x41) + Encode(channel)|);
    var v := Set(w, i, if n > 0 then Answered(w.streams[i], n) else w.streams[i]);
    assert StreamInv(w.streams[i]);
    forall j | 0 <= j < |v.streams| ensures StreamInv(v.streams[j]) && (Ready(v.streams[j]) ==> v.anythingToDo) {
      assert StreamInv(w.streams[j]);
    }
    CallbackCalls(v);
    CalledKeeps(v, Callback(v));
  }

  /** A client's subframe keeps it, accepted or not, whatever the callbacks it sets off do. */
  lemma ClientToServerKeepsInv(limits: Limits, w: World, b: seq<byte>, response: Option<seq<byte>>)
    requires Inv(w) && ClientToServer(limits, w, b, response).Handled?
    ensures Inv(ClientToServer(limits, w, b, response).s)
  {
    var Got(v, rest) := ReadTwo(b);
    var i, data := FindTunnel(w.streams, v.0).value, rest[..v.1];
    var s := w.streams[i];
    assert StreamInv(s);
    Assoc(s.delivered, s.held, data);
    var a := Set(w, i, Accepted(s, data));
    forall j | 0 <= j < |a.streams| ensures StreamInv(a.streams[j]) && (j != i && Ready(a.streams[j]) ==> a.anythingToDo) {
      assert StreamInv(w.streams[j]);
    }
    TransferKeeps(a, i);
    var t := Transfer(a, i).(anythingToDo := true);
    assert Inv(t) by {
      forall j | 0 <= j < |t.streams| ensures StreamInv(t.streams[j]) {
        assert StreamInv(Transfer(a, i).streams[j]);
      }
    }
    if response.Some? {
      RespondKeepsInv(limits, t, i, v.0, |t.streams[i].writing|, response.value);
    }
  }

  lemma ClientPollServerKeepsInv(limits: Limits, w: World, b: seq<byte>, response: Option<seq<byte>>)
    requires Inv(w) && ClientPollServer(limits, w, b, response).Handled?
    ensures Inv(ClientPollServer(limits, w, b, response).s)
  {
    var Got(v, rest) := ReadTwo(b);
    if response.Some? {
      RespondKeepsInv(limits, w, FindTunnel(w.streams, v.0).value, v.0, v.1, response.value);
    }
  }

  // ----- all runs

  datatype Event =
    | Called(call: Call)
    | Polled
    | FromClient(bytes: seq<byte>, response: Option<seq<byte>>)
    | PolledByClient(bytes: seq<byte>, response: Option<seq<byte>>)

  function Step(limits: Limits, w: World, e: Event): World {
    match e
    case Called(c) => if Legal(w, c) then Do(w, c) else w
    case Polled => Poll(w)
    case FromClient(b, r) => (match ClientToServer(limits, w, b, r) case Handled(t, _, _) => t case Refused => w)
    case PolledByClient(b, r) => (match ClientPollServer(limits, w, b, r) case Handled(t, _, _) => t case Refused => w)
  }

  function Run(limits: Limits, w: World, events: seq<Event>): World
    decreases |events|
  {
    if events == [] then w else Run(limits, Step(limits, w, events[0]), events[1..])
  }

  lemma StepKeepsInv(limits: Limits, w: World, e: Event)
    requires Inv(w)
    ensures Inv(Step(limits, w, e))
  {
    match e
    case Called(c) =>
      DoAllCalls(w, [c]);
      assert [c][1..] == [];
      if Legal(w, c) {
        CalledKeeps(w, Do(w, c));
      }
    case Polled => PollKeepsInv(w);
    case FromClient(b, r) =>
      if ClientToServer(limits, w, b, r).Handled? {
        ClientToServerKeepsInv(limits, w, b, r);
      }
    case PolledByClient(b, r) =>
      if ClientPollServer(limits, w, b, r).Handled? {
        ClientPollServerKeepsInv(limits, w, b, r);
      }
  }

  /** After any run, whatever the callbacks did: what readers got, followed by what is held, is what was accepted from
      the client, in order; no more than 128 bytes are held; and data with a reader waiting has the flag set. */
  lemma {:induction false} RunKeepsInv(limits: Limits, w: World, events: seq<Event>)
    requires Inv(w)
    ensures Inv(Run(limits, w, events))
    decreases |events|
  {
    if events != [] {
      StepKeepsInv(limits, w, events[0]);
      RunKeepsInv(limits, Step(limits, w, events[0]), events[1..]);
    }
  }

  /** With the flag set, a Poll hands over to every stream that is ready and stays so until its turn: the first one. */
  lemma PollHandsOver(w: World, i: nat)
    requires Inv(w) && i < |w.streams| && Ready(w.streams[i]) && forall j :: 0 <= j < i ==> !Ready(w.streams[j])
    ensures w.anythingToDo
    ensures PollFrom(w, 0, true) == PollFrom(Transfer(w, i), i + 1, false)
  {
    PollSkips(w, 0, i);
  }

  lemma {:induction false} PollSkips(w: World, k: nat, i: nat)
    requires k <= i < |w.streams| && forall j :: k <= j < i ==> !Ready(w.streams[j])
    ensures PollFrom(w, k, true) == PollFrom(w, i, true)
    decreases i - k
  {
    if k < i {
      PollSkips(w, k + 1, i);
    }
  }

  /** A Poll with the flag set hands to every reader that waits at its start, with data there, as much as it wants and
      there is, whatever the callbacks on the way do. */
  lemma PollServesAll(w: World, i: nat)
    requires w.anythingToDo && i < |w.streams| && Ready(w.streams[i])
    ensures
      var s, t := w.streams[i], Poll(w).streams[i];
      t.delivered == s.delivered + s.held[..Min(s.wanted, |s.held|)] && t.held == s.held[Min(s.wanted, |s.held|)..]
  {
    PollServesFrom(w, 0, true, i);
  }

  lemma {:induction false} PollServesFrom(w: World, k: nat, allDone: bool, i: nat)
    requires k <= i < |w.streams| && Ready(w.streams[i])
    ensures
      var s, t := w.streams[i], PollFrom(w, k, allDone).0.streams[i];
      t.delivered == s.delivered + s.held[..Min(s.wanted, |s.held|)] && t.held == s.held[Min(s.wanted, |s.held|)..]
    decreases i - k
  {
    var t := Transfer(w, k);
    TransferTouchesOne(w, k);
    if k < i {
      TransferKeepsWanting(w, k, i);
      PollServesFrom(t, k + 1, allDone && !Ready(w.streams[k]), i);
    } else {
      PollLeavesEarlier(t, i + 1, false, i);
    }
  }

  /** While a read waits no callback can make another. */
  lemma {:induction false} DoAllKeepsWanting(w: World, calls: seq<Call>, i: nat)
    requires i < |w.streams| && w.streams[i].wanted > 0
    ensures DoAll(w, calls).streams[i].wanted == w.streams[i].wanted
    decreases |calls|
  {
    if calls != [] && Legal(w, calls[0]) {
      DoAllKeepsWanting(Do(w, calls[0]), calls[1..], i);
    }
  }

  lemma TransferKeepsWanting(w: World, k: nat, i: nat)
    requires k < |w.streams| && i < |w.streams| && i != k && w.streams[i].wanted > 0
    ensures Transfer(w, k).streams[i].wanted == w.streams[i].wanted
  {
    if Ready(w.streams[k]) && w.script != [] {
      var v := Set(w, k, Transferred(w.streams[k]));
      DoAllKeepsWanting(v.(script := v.script[1..]), v.script[0], i);
    }
  }

  lemma {:induction false} PollLeavesEarlier(w: World, k: nat, allDone: bool, i: nat)
    requires i < k <= |w.streams|
    ensures CalledStream(w.streams[i], PollFrom(w, k, allDone).0.streams[i])
    decreases |w.streams| - k
  {
    if k < |w.streams| {
      TransferTouchesOne(w, k);
      PollLeavesEarlier(Transfer(w, k), k + 1, allDone && !Ready(w.streams[k]), i);
    }
  }

  // ----- what an overrun leaves behind

  /** What is not read yet is the end of what there was. */
  lemma ReadTwoIsPrefix(b: seq<byte>)
    requires ReadTwo(b).Got?
    ensures ReadTwo(b).rest == b[|b| - |ReadTwo(b).rest|..]
  {
    var b1 := Decode32(b).rest;
    Decode32IsPrefix(b);
    Decode32IsPrefix(b1);
  }

  lemma Decode32IsPrefix(b: seq<byte>)
    requires Decode32(b).Got?
    ensures Decode32(b).rest == b[|b| - |Decode32(b).rest|..]
  {
    if !TooLong(b) {
      Decode32OfPart(b, 0, []);
    }
  }

  /** What a stream holds after it was offered `data` and a reader that waits was served. */
  function HeldAfter(s: Stream, data: seq<byte>): seq<byte> {
    var a := Accepted(s, data);
    if Ready(a) then Transferred(a).held else a.held
  }

  /** A client's subframe is consumed together with its payload if and only if the payload fits next to what the stream
      holds; only then is it accepted, and otherwise its bytes are what is read next, as if they were a subframe.
      Nothing is done to any other stream.  This holds in every state, for every spelling of the numbers, with a
      response or without. */
  lemma PayloadConsumedIffItFits(limits: Limits, w: World, b: seq<byte>, response: Option<seq<byte>>, i: nat)
    requires ReadTwo(b).Got? && ReadTwo(b).value.1 <= |ReadTwo(b).rest|
    requires FindTunnel(w.streams, ReadTwo(b).value.0) == Some(i)
    ensures
      var n, rest, s := ReadTwo(b).value.1, ReadTwo(b).rest, w.streams[i];
      var r, fits := ClientToServer(limits, w, b, response), n <= CAPACITY - |s.held|;
      && r.Handled? && r.consumed <= |b| && |r.s.streams| == |w.streams|
      && b[r.consumed..] == (if fits then rest[n..] else rest)
      && r.s.streams[i].accepted == (if fits then s.accepted + rest[..n] else s.accepted)
      && r.s.streams[i].held == HeldAfter(s, rest[..n])
      && (!fits && !Ready(s) ==> CalledStream(s, r.s.streams[i]))
      && forall j :: 0 <= j < |w.streams| && j != i ==> CalledStream(w.streams[j], r.s.streams[j])
  {
    var Got(v, rest) := ReadTwo(b);
    var s := w.streams[i];
    ReadTwoIsPrefix(b);
    SliceOfSuffix(b, |b| - |rest|, v.1, |rest|);
    var a := Set(w, i, Accepted(s, rest[..v.1]));
    TransferTouchesOne(a, i);
    var t := Transfer(a, i).(anythingToDo := true);
    if response.Some? {
      RespondTouchesNone(limits, t, i, v.0, |t.streams[i].writing|, response.value);
    }
  }

  lemma TransferTouchesOne(w: World, i: nat)
    requires i < |w.streams|
    ensures
      var t, s := Transfer(w, i), w.streams[i];
      && CalledStream(if Ready(s) then Transferred(s) else s, t.streams[i])
      && forall j :: 0 <= j < |w.streams| && j != i ==> CalledStream(w.streams[j], t.streams[j])
  {
    var s := w.streams[i];
    if Ready(s) {
      var v := Set(w, i, Transferred(s));
      CallbackCalls(v);
      assert forall j :: 0 <= j < |w.streams| ==> CalledStream(v.streams[j], Callback(v).streams[j]);
    }
  }

  lemma RespondTouchesNone(limits: Limits, w: World, i: nat, channel: nat, most: nat, response: seq<byte>)
    requires i < |w.streams|
    ensures forall j :: 0 <= j < |w.streams| ==> CalledStream(w.streams[j], Respond(limits, w, i, channel, most, response).0.streams[j])
  {
    var n := ToCopy(limits, Min(most, |w.streams[i].writing|), |response| + |Encode(0x41) + Encode(channel)|);
    var v := Set(w, i, if n > 0 then Answered(w.streams[i], n) else w.streams[i]);
    CallbackCalls(v);
    assert forall j :: 0 <= j < |w.streams| ==> CalledStream(v.streams[j], Callback(v).streams[j]);
  }

  // ----- the class: bytes in place

  class TunnelStream {
    const id: nat
    const readData: array<byte>
    var readDataSize: nat
    var readBuffer: nat
    var writeBuffer: seq<byte>
    ghost var accepted: seq<byte>
    ghost var delivered: seq<byte>
    ghost var writes: seq<seq<byte>>
    ghost var said: seq<seq<byte>>

    ghost predicate Valid()
      reads this, readData
    {
      readData.Length == CAPACITY && readDataSize <= CAPACITY && StreamInv(Now())
    }

    ghost function Now(): Stream
      reads this, readData
      requires readDataSize <= readData.Length
    {
      Stream(id, readData[..readDataSize], readBuffer, writeBuffer, accepted, delivered, writes, said)
    }

    constructor (id: nat)
      ensures Valid() && fresh(readData) && Now() == Stream(id, [], 0, [], [], [], [], [])
    {
      this.id := id;
      readData := new byte[CAPACITY];
      readDataSize, readBuffer, writeBuffer := 0, 0, [];
      accepted, delivered, writes, said := [], [], [], [];
    }

    /** False is an overrun, counted by the caller. */
    method Accept(data: seq<byte>) returns (ok: bool)
      requires Valid()
      modifies this`readDataSize, this`accepted, readData
      ensures Valid() && Now() == Accepted(old(Now()), data)
      ensures ok <==> |data| <= CAPACITY - |old(Now()).held|
    {
      var remainingSpace := CAPACITY - readDataSize;
      if |data| > remainingSpace {
        return false;
      }
      forall k | 0 <= k < |data| {
        readData[readDataSize + k] := data[k];
      }
      assert readData[..readDataSize + |data|] == old(readData[..readDataSize]) + data;
      Assoc(delivered, old(readData[..readDataSize]), data);
      readDataSize := readDataSize + |data|;
      accepted := accepted + data;
      ok := true;
    }

    /** Answers the pending write with its first `toCopy` bytes, up to the callback, which is told their number. */
    method Say(toCopy: nat) returns (part: seq<byte>)
      requires Valid() && toCopy <= |writeBuffer|
      modifies this`writeBuffer, this`said
      ensures Valid() && part == old(writeBuffer)[..toCopy] && Now() == Answered(old(Now()), toCopy)
    {
      part := writeBuffer[..toCopy];
      writeBuffer := [];
      said := said + [part];
    }

    /** DoReadTransfer up to the callback, which is told how much was copied. */
    method TransferOut() returns (r: Option<seq<byte>>)
      requires Valid()
      modifies this`readDataSize, this`readBuffer, this`delivered, readData
      ensures Valid()
      ensures if Ready(old(Now())) then
                Now() == Transferred(old(Now())) && r == Some(old(Now()).held[..Min(old(Now()).wanted, |old(Now()).held|)])
              else Now() == old(Now()) && r == None
    {
      if readDataSize == 0 || readBuffer == 0 {
        return None;
      }
      var toCopy := Min(readBuffer, readDataSize);
      var copied := readData[..toCopy];
      ghost var held := readData[..readDataSize];
      assert held == copied + held[toCopy..];
      Assoc(delivered, copied, held[toCopy..]);
      forall k | 0 <= k < readDataSize - toCopy {
        readData[k] := readData[toCopy + k];
      }
      readDataSize := readDataSize - toCopy;
      assert readData[..readDataSize] == held[toCopy..];
      readBuffer := 0;
      delivered := delivered + copied;
      r := Some(copied);
    }
  }
}
