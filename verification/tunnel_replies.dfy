/** From server to client through a tunnel: what the replies say, and what a client hears over a run. */
module TunnelReplies {
  import opened Bytes
  import opened Varuint
  import opened RegisterProtocol
  import opened MicroServer
  import opened Tunnel

  // ----- writes and answers

  /** Every write begun was answered with a first part of it, in order, the last one possibly not yet. */
  ghost predicate SayInv(s: Stream) {
    && |s.writes| == |s.said| + (if s.writing == [] then 0 else 1)
    && (s.writing != [] ==> s.writes[|s.said|] == s.writing)
    && forall k :: 0 <= k < |s.said| ==> s.said[k] != [] && s.said[k] <= s.writes[k]
  }

  ghost predicate AllSay(w: World) {
    forall i :: 0 <= i < |w.streams| ==> SayInv(w.streams[i])
  }

  /** Between the two nothing was said. */
  ghost predicate NothingSaid(w: World, t: World) {
    |t.streams| == |w.streams| && forall i :: 0 <= i < |w.streams| ==> Quietly(w.streams[i], t.streams[i])
  }

  ghost predicate Quietly(s: Stream, t: Stream) {
    t.id == s.id && t.said == s.said && s.writes <= t.writes
  }

  lemma QuietlyOn(a: World, b: World, c: World)
    requires NothingSaid(a, b) && NothingSaid(b, c)
    ensures NothingSaid(a, c)
  {
    forall i | 0 <= i < |a.streams| ensures Quietly(a.streams[i], c.streams[i]) {
      assert Quietly(a.streams[i], b.streams[i]) && Quietly(b.streams[i], c.streams[i]);
    }
  }

  lemma {:induction false} DoAllSays(w: World, calls: seq<Call>)
    requires AllSay(w)
    ensures AllSay(DoAll(w, calls)) && NothingSaid(w, DoAll(w, calls))
    decreases |calls|
  {
    if calls != [] && Legal(w, calls[0]) {
      DoSays(w, calls[0]);
      DoAllSays(Do(w, calls[0]), calls[1..]);
      QuietlyOn(w, Do(w, calls[0]), DoAll(w, calls));
    }
  }

  lemma DoSays(w: World, c: Call)
    requires AllSay(w) && Legal(w, c)
    ensures AllSay(Do(w, c)) && NothingSaid(w, Do(w, c))
  {
    var t := Do(w, c);
    forall i | 0 <= i < |w.streams| ensures SayInv(t.streams[i]) && Quietly(w.streams[i], t.streams[i]) {
      assert SayInv(w.streams[i]);
    }
  }

  lemma CallbackSays(w: World)
    requires AllSay(w)
    ensures AllSay(Callback(w)) && NothingSaid(w, Callback(w))
  {
    if w.script != [] {
      var v := w.(script := w.script[1..]);
      assert AllSay(v) by {
        forall i | 0 <= i < |v.streams| ensures SayInv(v.streams[i]) {
          assert SayInv(w.streams[i]);
        }
      }
      DoAllSays(v, w.script[0]);
      assert NothingSaid(w, v);
      QuietlyOn(w, v, Callback(w));
    }
  }

  /** What changes a stream's reading side only. */
  lemma ReadingSays(w: World, i: nat, s: Stream)
    requires AllSay(w) && i < |w.streams|
    requires s.id == w.streams[i].id && s.writing == w.streams[i].writing && s.writes == w.streams[i].writes
    requires s.said == w.streams[i].said
    ensures AllSay(Set(w, i, s)) && NothingSaid(w, Set(w, i, s))
  {
    var t := Set(w, i, s);
    forall j | 0 <= j < |w.streams| ensures SayInv(t.streams[j]) && Quietly(w.streams[j], t.streams[j]) {
      assert SayInv(w.streams[j]);
    }
  }

  lemma TransferSays(w: World, i: nat)
    requires AllSay(w) && i < |w.streams|
    ensures AllSay(Transfer(w, i)) && NothingSaid(w, Transfer(w, i))
  {
    ReadingSays(w, i, w.streams[i]);
    if Ready(w.streams[i]) {
      var v := Set(w, i, Transferred(w.streams[i]));
      ReadingSays(w, i, Transferred(w.streams[i]));
      CallbackSays(v);
      QuietlyOn(w, v, Callback(v));
    } else {
      assert w.streams[i := w.streams[i]] == w.streams;
    }
  }

  lemma {:induction false} PollSays(w: World, i: nat, allDone: bool)
    requires AllSay(w) && i <= |w.streams|
    ensures AllSay(PollFrom(w, i, allDone).0) && NothingSaid(w, PollFrom(w, i, allDone).0)
    decreases |w.streams| - i
  {
    if i < |w.streams| {
      TransferSays(w, i);
      PollSays(Transfer(w, i), i + 1, allDone && !Ready(w.streams[i]));
      QuietlyOn(w, Transfer(w, i), PollFrom(w, i, allDone).0);
    }
  }

  // ----- what a reply says

  /** How much room there is behind what is written and a head of `head` bytes: two bytes of checksum, five of a number
      and sixteen to spare have to fit as well, and the whole in a datagram. */
  function Room(limits: Limits, written: nat, head: nat): int {
    Min(limits.maxSize - 23, limits.bufferSize - written - head - 23)
  }

  function ReplyStart(channel: nat): seq<byte> {
    Encode(0x41) + Encode(channel)
  }

  /** The write that is next to be answered, if one was begun. */
  function NextWrite(s: Stream, t: Stream): seq<byte> {
    if |t.writes| > |s.said| then t.writes[|s.said|] else []
  }

  /** From `s` to `t`, a reply was made: the number of the subframe, the channel, a size, and as many first bytes of the
      next write as were asked for, are there, and have room; and exactly when that is at least one byte the write is
      answered with them. */
  ghost predicate Replied(limits: Limits, s: Stream, t: Stream, channel: nat, most: Option<nat>, written: nat,
                          reply: seq<byte>)
  {
    var next, room := NextWrite(s, t), Room(limits, written, |ReplyStart(channel)|);
    var n := Min(if most.Some? then Min(most.value, |next|) else |next|, room);
    && reply == ReplyStart(channel) + Encode(n % 0x1_0000_0000) + (if n > 0 then next[..n] else [])
    && t.said == s.said + (if n > 0 then [next[..n]] else [])
    && t.id == s.id && s.writes <= t.writes
  }

  lemma AnsweredSays(w: World, i: nat, n: nat)
    requires AllSay(w) && i < |w.streams| && 0 < n <= |w.streams[i].writing|
    ensures AllSay(Set(w, i, Answered(w.streams[i], n)))
  {
    var t := Set(w, i, Answered(w.streams[i], n));
    forall j | 0 <= j < |w.streams| ensures SayInv(t.streams[j]) {
      assert SayInv(w.streams[j]);
    }
  }

  lemma RespondSays(limits: Limits, w: World, i: nat, channel: nat, most: nat, response: seq<byte>)
    requires AllSay(w) && i < |w.streams|
    ensures
      var (t, reply) := Respond(limits, w, i, channel, most, response);
      && AllSay(t)
      && Replied(limits, w.streams[i], t.streams[i], channel, Some(most), |response|, reply)
      && forall j :: 0 <= j < |w.streams| && j != i ==> Quietly(w.streams[j], t.streams[j])
  {
    var s := w.streams[i];
    assert SayInv(s);
    var n := Min(Min(most, |s.writing|), Room(limits, |response|, |ReplyStart(channel)|));
    assert n == ToCopy(limits, Min(most, |s.writing|), |response| + |ReplyStart(channel)|);
    if n > 0 {
      var v := Set(w, i, Answered(s, n));
      AnsweredSays(w, i, n);
      CallbackSays(v);
      var t := Callback(v);
      assert Quietly(v.streams[i], t.streams[i]);
      assert t.streams[i].writes[|s.said|] == s.writing;
      forall j | 0 <= j < |w.streams| && j != i ensures Quietly(w.streams[j], t.streams[j]) {
        assert Quietly(v.streams[j], t.streams[j]);
      }
    } else {
      assert s.said + [] == s.said;
      var head := ReplyStart(channel) + Encode(n % 0x1_0000_0000);
      assert head + [] == head;
    }
  }

  /** The reply to a client's data, whatever became of the data: as much as there is and has room. */
  lemma ClientToServerReplies(limits: Limits, w: World, b: seq<byte>, response: seq<byte>)
    requires AllSay(w) && ClientToServer(limits, w, b, Some(response)).Handled?
    ensures
      var channel, r := ReadTwo(b).value.0, ClientToServer(limits, w, b, Some(response));
      var i := FindTunnel(w.streams, channel);
      && i.Some? && AllSay(r.s) && |r.s.streams| == |w.streams|
      && Replied(limits, w.streams[i.value], r.s.streams[i.value], channel, None, |response|, r.reply)
      && forall j :: 0 <= j < |w.streams| && j != i.value ==> Quietly(w.streams[j], r.s.streams[j])
  {
    var Got(v, rest) := ReadTwo(b);
    var i, data := FindTunnel(w.streams, v.0).value, rest[..v.1];
    var a := Set(w, i, Accepted(w.streams[i], data));
    ReadingSays(w, i, Accepted(w.streams[i], data));
    TransferSays(a, i);
    QuietlyOn(w, a, Transfer(a, i));
    var t := Transfer(a, i).(anythingToDo := true);
    assert AllSay(t) && NothingSaid(w, t) by {
      forall j | 0 <= j < |t.streams| ensures SayInv(t.streams[j]) && Quietly(w.streams[j], t.streams[j]) {
        assert SayInv(Transfer(a, i).streams[j]) && Quietly(w.streams[j], Transfer(a, i).streams[j]);
      }
    }
    RespondSays(limits, t, i, v.0, |t.streams[i].writing|, response);
    var u := Respond(limits, t, i, v.0, |t.streams[i].writing|, response).0;
    assert SayInv(t.streams[i]) && Quietly(w.streams[i], t.streams[i]);
    AsMuchAsThereIs(limits, w.streams[i], t.streams[i], u.streams[i], v.0, |response|,
                    ClientToServer(limits, w, b, Some(response)).reply);
    forall j | 0 <= j < |w.streams| && j != i ensures Quietly(w.streams[j], u.streams[j]) {
      assert Quietly(w.streams[j], t.streams[j]) && Quietly(t.streams[j], u.streams[j]);
    }
  }

  lemma AsMuchAsThereIs(limits: Limits, s: Stream, t: Stream, u: Stream, channel: nat, written: nat, reply: seq<byte>)
    requires Quietly(s, t) && SayInv(t) && Replied(limits, t, u, channel, Some(|t.writing|), written, reply)
    requires t.writing == [] ==> u.writes == t.writes || |u.said| > |t.said|
    ensures Replied(limits, s, u, channel, None, written, reply)
  {
  }

  /** The reply to a client's poll: no more than it asked for. */
  lemma ClientPollServerReplies(limits: Limits, w: World, b: seq<byte>, response: seq<byte>)
    requires AllSay(w) && ClientPollServer(limits, w, b, Some(response)).Handled?
    ensures
      var v, r := ReadTwo(b).value, ClientPollServer(limits, w, b, Some(response));
      var i := FindTunnel(w.streams, v.0);
      && i.Some? && AllSay(r.s) && |r.s.streams| == |w.streams|
      && Replied(limits, w.streams[i.value], r.s.streams[i.value], v.0, Some(v.1), |response|, r.reply)
      && forall j :: 0 <= j < |w.streams| && j != i.value ==> Quietly(w.streams[j], r.s.streams[j])
  {
    var v := ReadTwo(b).value;
    RespondSays(limits, w, FindTunnel(w.streams, v.0).value, v.0, v.1, response);
  }

  /** With no response to write into nothing is said. */
  lemma WithoutResponse(limits: Limits, w: World, b: seq<byte>)
    requires AllSay(w)
    ensures
      var r := ClientToServer(limits, w, b, None);
      r.Handled? ==> AllSay(r.s) && NothingSaid(w, r.s) && r.reply == []
    ensures
      var r := ClientPollServer(limits, w, b, None);
      r.Handled? ==> AllSay(r.s) && NothingSaid(w, r.s) && r.reply == []
  {
    if ClientToServer(limits, w, b, None).Handled? {
      var Got(v, rest) := ReadTwo(b);
      var i, data := FindTunnel(w.streams, v.0).value, rest[..v.1];
      var a := Set(w, i, Accepted(w.streams[i], data));
      ReadingSays(w, i, Accepted(w.streams[i], data));
      TransferSays(a, i);
      QuietlyOn(w, a, Transfer(a, i));
      var t := Transfer(a, i).(anythingToDo := true);
      forall j | 0 <= j < |t.streams| ensures SayInv(t.streams[j]) && Quietly(w.streams[j], t.streams[j]) {
        assert SayInv(Transfer(a, i).streams[j]) && Quietly(w.streams[j], Transfer(a, i).streams[j]);
      }
    }
  }

  // ----- what the client hears

  /** A client's reading of a reply: the channel and the bytes; `Abort` when it is something else. */
  function Hear(b: seq<byte>): Read<(nat, seq<byte>)> {
    var (typ, b1) :- Decode32(b);
    if typ != 0x41 then Abort
    else
      var (channel, b2) :- Decode32(b1);
      var (n, b3) :- Decode32(b2);
      if |b3| < n then Short else Got((channel, b3[..n]), b3[n..])
  }

  /** A reply is heard as the bytes it was made of, whatever follows it, if and only if there was room: without it the
      size announced is that of a negative number, and so many bytes of what follows are taken for the channel's. */
  lemma HeardIffRoom(limits: Limits, s: Stream, t: Stream, channel: nat, most: Option<nat>, written: nat,
                     reply: seq<byte>, more: seq<byte>)
    requires Replied(limits, s, t, channel, most, written, reply) && channel < TWO32
    requires limits.bufferSize < TWO32 && limits.maxSize < TWO32 && written <= limits.bufferSize
    ensures
      var room := Room(limits, written, |ReplyStart(channel)|);
      Hear(reply + more) == Got((channel, if |t.said| > |s.said| then t.said[|s.said|] else []), more) <==> room >= 0
    ensures |more| < 0x8000_0000 && Room(limits, written, |ReplyStart(channel)|) < 0 ==> Hear(reply + more) == Short
  {
    var next, room := NextWrite(s, t), Room(limits, written, |ReplyStart(channel)|);
    var n := Min(if most.Some? then Min(most.value, |next|) else |next|, room);
    var said: seq<byte> := if n > 0 then next[..n] else [];
    ChannelIsSmall(channel);
    HeardIffNotNegative(channel, n, said, reply, more);
  }

  lemma HeardIffNotNegative(channel: nat, n: int, said: seq<byte>, reply: seq<byte>, more: seq<byte>)
    requires channel < TWO32 && -0x1_0000_0000 < n < TWO32 && |said| == (if n > 0 then n else 0)
    requires reply == ReplyStart(channel) + Encode(n % 0x1_0000_0000) + said
    ensures Hear(reply + more) == Got((channel, said), more) <==> n >= 0
    ensures n < 0 && |more| < 0x1_0000_0000 + n ==> Hear(reply + more) == Short
  {
    HearReply(channel, n % 0x1_0000_0000, said, more, reply);
    Unsigned(n);
    TakenIff(channel, n, n % 0x1_0000_0000, said, more, Hear(reply + more));
  }

  lemma Unsigned(n: int)
    requires -0x1_0000_0000 < n < 0x1_0000_0000
    ensures n % 0x1_0000_0000 == if n >= 0 then n else n + 0x1_0000_0000
  {
  }

  /** Taking `m` bytes takes exactly those said if that is their number. */
  lemma TakenIff(channel: nat, n: int, m: nat, said: seq<byte>, more: seq<byte>, heard: Read<(nat, seq<byte>)>)
    requires m == if n >= 0 then n else n + 0x1_0000_0000
    requires -0x1_0000_0000 < n && |said| == (if n > 0 then n else 0)
    requires var b := said + more; heard == if |b| < m then Short else Got((channel, b[..m]), b[m..])
    ensures heard == Got((channel, said), more) <==> n >= 0
    ensures n < 0 && |more| < m ==> heard == Short
  {
    if n >= 0 {
      DropOfConcat(said, more, |said|);
      assert said[..n] == said && said[n..] + more == more;
    } else if m <= |more| {
      assert |(said + more)[..m]| == m > |said|;
    }
  }

  lemma ChannelIsSmall(channel: nat)
    requires channel < TWO32
    ensures |ReplyStart(channel)| <= 6
  {
    SizeBound(channel, 5);
    Pow128Five();
  }

  lemma Pow128Five()
    ensures Pow128(5) >= TWO32
  {
    assert Pow128(2) == 0x4000;
    assert Pow128(4) == 0x4000 * 0x4000;
  }

  lemma HearReply(channel: nat, n: nat, said: seq<byte>, more: seq<byte>, reply: seq<byte>)
    requires channel < TWO32 && n < TWO32 && reply == ReplyStart(channel) + Encode(n) + said
    ensures
      var b := said + more;
      Hear(reply + more) == if |b| < n then Short else Got((channel, b[..n]), b[n..])
  {
    var b3 := said + more;
    var b2 := Encode(n) + b3;
    var b1 := Encode(channel) + b2;
    Assoc(ReplyStart(channel) + Encode(n), said, more);
    Assoc(ReplyStart(channel), Encode(n), b3);
    Assoc(Encode(0x41), Encode(channel), b2);
    Decode32AfterEncode(0x41, b1);
    Decode32AfterEncode(channel, b2);
    Decode32AfterEncode(n, b3);
  }

  // ----- runs

  function ReplyOf(limits: Limits, w: World, e: Event): seq<byte> {
    match e
    case FromClient(b, r) => (match ClientToServer(limits, w, b, r) case Handled(_, _, reply) => reply case Refused => [])
    case PolledByClient(b, r) => (match ClientPollServer(limits, w, b, r) case Handled(_, _, reply) => reply case Refused => [])
    case _ => []
  }

  /** What a client of the channel hears in the replies of a run, one part after the other. */
  function Heard(limits: Limits, w: World, events: seq<Event>, channel: nat): seq<seq<byte>>
    decreases |events|
  {
    if events == [] then []
    else HeardIn(ReplyOf(limits, w, events[0]), channel) + Heard(limits, Step(limits, w, events[0]), events[1..], channel)
  }

  function HeardIn(reply: seq<byte>, channel: nat): seq<seq<byte>> {
    match Hear(reply)
    case Got(v, _) => if v.0 == channel && v.1 != [] then [v.1] else []
    case _ => []
  }

  /** A response that is in its buffer. */
  predicate Fits(limits: Limits, e: Event) {
    (e.FromClient? || e.PolledByClient?) && e.response.Some? ==> |e.response.value| <= limits.bufferSize
  }

  lemma ReplyIsHeard(limits: Limits, s: Stream, t: Stream, at: nat, most: Option<nat>, written: nat, reply: seq<byte>,
                     channel: nat)
    requires Replied(limits, s, t, at, most, written, reply) && at < TWO32
    requires limits.bufferSize < TWO32 && limits.maxSize < TWO32 && written <= limits.bufferSize
    ensures HeardIn(reply, channel) == if channel == at then t.said[|s.said|..] else []
    ensures s.said <= t.said
  {
    var next, room := NextWrite(s, t), Room(limits, written, |ReplyStart(at)|);
    var n := Min(if most.Some? then Min(most.value, |next|) else |next|, room);
    var said: seq<byte> := if n > 0 then next[..n] else [];
    ChannelIsSmall(at);
    PartIsHeard(at, n, said, reply, channel);
  }

  lemma PartIsHeard(at: nat, n: int, said: seq<byte>, reply: seq<byte>, channel: nat)
    requires at < TWO32 && -0x1_0000_0000 < n < TWO32 && |said| == (if n > 0 then n else 0)
    requires reply == ReplyStart(at) + Encode(n % 0x1_0000_0000) + said
    ensures HeardIn(reply, channel) == if channel == at && n > 0 then [said] else []
  {
    HeardIffNotNegative(at, n, said, reply, []);
    assert reply + [] == reply;
  }

  /** The stream replied on, and any other. */
  lemma ReplyStepIsHeard(limits: Limits, w: World, t: World, at: nat, k: nat, most: Option<nat>, written: nat,
                         reply: seq<byte>, i: nat, channel: nat)
    requires FindTunnel(w.streams, at) == Some(k) && FindTunnel(w.streams, channel) == Some(i) && at < TWO32
    requires |t.streams| == |w.streams| && Replied(limits, w.streams[k], t.streams[k], at, most, written, reply)
    requires forall j :: 0 <= j < |w.streams| && j != k ==> Quietly(w.streams[j], t.streams[j])
    requires limits.bufferSize < TWO32 && limits.maxSize < TWO32 && written <= limits.bufferSize
    ensures t.streams[i].said == w.streams[i].said + HeardIn(reply, channel) && SameIds(w, t)
  {
    ReplyIsHeard(limits, w.streams[k], t.streams[k], at, most, written, reply, channel);
    if i != k {
      assert Quietly(w.streams[i], t.streams[i]);
      assert w.streams[i].said + [] == w.streams[i].said;
    }
  }

  lemma NothingIsHeard(w: World, t: World, i: nat, channel: nat)
    requires NothingSaid(w, t) && i < |w.streams|
    ensures t.streams[i].said == w.streams[i].said + HeardIn([], channel) && SameIds(w, t)
  {
    assert Quietly(w.streams[i], t.streams[i]);
    assert w.streams[i].said + [] == w.streams[i].said;
  }

  /** One step: what is said on a stream is what is heard of it. */
  lemma StepIsHeard(limits: Limits, w: World, e: Event, i: nat, channel: nat)
    requires AllSay(w) && FindTunnel(w.streams, channel) == Some(i) && Fits(limits, e)
    requires limits.bufferSize < TWO32 && limits.maxSize < TWO32
    ensures
      var t := Step(limits, w, e);
      AllSay(t) && SameIds(w, t) && t.streams[i].said == w.streams[i].said + HeardIn(ReplyOf(limits, w, e), channel)
  {
    var t := Step(limits, w, e);
    match e
    case Called(c) =>
      DoAllSays(w, [c]);
      assert [c][1..] == [] && t == DoAll(w, [c]);
      NothingIsHeard(w, t, i, channel);
    case Polled =>
      PollFromSays(w);
      NothingIsHeard(w, t, i, channel);
    case FromClient(b, r) => FromClientIsHeard(limits, w, b, r, i, channel);
    case PolledByClient(b, r) => PolledIsHeard(limits, w, b, r, i, channel);
  }

  lemma PollFromSays(w: World)
    requires AllSay(w)
    ensures AllSay(Poll(w)) && NothingSaid(w, Poll(w))
  {
    PollSays(w, 0, true);
    var t := PollFrom(w, 0, true).0;
    forall j | 0 <= j < |w.streams| ensures SayInv(Poll(w).streams[j]) && Quietly(w.streams[j], Poll(w).streams[j]) {
      assert SayInv(w.streams[j]) && SayInv(t.streams[j]) && Quietly(w.streams[j], t.streams[j]);
    }
  }

  lemma FromClientIsHeard(limits: Limits, w: World, b: seq<byte>, r: Option<seq<byte>>, i: nat, channel: nat)
    requires AllSay(w) && FindTunnel(w.streams, channel) == Some(i) && Fits(limits, FromClient(b, r))
    requires limits.bufferSize < TWO32 && limits.maxSize < TWO32
    ensures
      var e := FromClient(b, r);
      var t := Step(limits, w, e);
      AllSay(t) && SameIds(w, t) && t.streams[i].said == w.streams[i].said + HeardIn(ReplyOf(limits, w, e), channel)
  {
    var o := ClientToServer(limits, w, b, r);
    if o.Refused? {
      NothingIsHeard(w, w, i, channel);
    } else if r == None {
      WithoutResponse(limits, w, b);
      NothingIsHeard(w, o.s, i, channel);
    } else {
      ClientToServerReplies(limits, w, b, r.value);
      var at := ReadTwo(b).value.0;
      ReplyStepIsHeard(limits, w, o.s, at, FindTunnel(w.streams, at).value, None, |r.value|, o.reply, i, channel);
    }
  }

  lemma PolledIsHeard(limits: Limits, w: World, b: seq<byte>, r: Option<seq<byte>>, i: nat, channel: nat)
    requires AllSay(w) && FindTunnel(w.streams, channel) == Some(i) && Fits(limits, PolledByClient(b, r))
    requires limits.bufferSize < TWO32 && limits.maxSize < TWO32
    ensures
      var e := PolledByClient(b, r);
      var t := Step(limits, w, e);
      AllSay(t) && SameIds(w, t) && t.streams[i].said == w.streams[i].said + HeardIn(ReplyOf(limits, w, e), channel)
  {
    var o := ClientPollServer(limits, w, b, r);
    if o.Refused? {
      NothingIsHeard(w, w, i, channel);
    } else if r == None {
      WithoutResponse(limits, w, b);
      NothingIsHeard(w, o.s, i, channel);
    } else {
      ClientPollServerReplies(limits, w, b, r.value);
      var v := ReadTwo(b).value;
      ReplyStepIsHeard(limits, w, o.s, v.0, FindTunnel(w.streams, v.0).value, Some(v.1), |r.value|, o.reply, i, channel);
    }
  }

  ghost predicate SameIds(w: World, t: World) {
    |t.streams| == |w.streams| && forall j :: 0 <= j < |w.streams| ==> t.streams[j].id == w.streams[j].id
  }

  lemma {:induction false} FoundAgain(a: seq<Stream>, b: seq<Stream>, id: nat)
    requires |a| == |b| && forall j :: 0 <= j < |a| ==> a[j].id == b[j].id
    ensures FindTunnel(a, id) == FindTunnel(b, id)
    decreases |a|
  {
    if a != [] {
      FoundAgain(a[1..], b[1..], id);
    }
  }

  /** Over a run, whatever the callbacks do: what a client hears on a channel is what was said on it. */
  lemma {:induction false} RunIsHeard(limits: Limits, w: World, events: seq<Event>, i: nat, channel: nat)
    requires AllSay(w) && FindTunnel(w.streams, channel) == Some(i)
    requires forall k :: 0 <= k < |events| ==> Fits(limits, events[k])
    requires limits.bufferSize < TWO32 && limits.maxSize < TWO32
    ensures
      var t := Run(limits, w, events);
      AllSay(t) && SameIds(w, t) && t.streams[i].said == w.streams[i].said + Heard(limits, w, events, channel)
    decreases |events|
  {
    if events == [] {
      assert w.streams[i].said + [] == w.streams[i].said;
    } else {
      var e, t := events[0], Step(limits, w, events[0]);
      StepIsHeard(limits, w, e, i, channel);
      FoundAgain(w.streams, t.streams, channel);
      RunIsHeard(limits, t, events[1..], i, channel);
      Assoc(w.streams[i].said, HeardIn(ReplyOf(limits, w, e), channel), Heard(limits, t, events[1..], channel));
    }
  }

  /** From the start: the k-th part a client hears is a first part of the application's k-th write, never empty, and
      only the last write can be one that was not heard of yet. */
  lemma ClientHearsWrites(limits: Limits, w: World, events: seq<Event>, i: nat, channel: nat)
    requires FindTunnel(w.streams, channel) == Some(i)
    requires forall j :: 0 <= j < |w.streams| ==> IsNew(w.streams[j])
    requires forall k :: 0 <= k < |events| ==> Fits(limits, events[k])
    requires limits.bufferSize < TWO32 && limits.maxSize < TWO32
    ensures
      var heard, t := Heard(limits, w, events, channel), Run(limits, w, events);
      && i < |t.streams| && |heard| <= |t.streams[i].writes| <= |heard| + 1
      && forall k :: 0 <= k < |heard| ==> heard[k] != [] && heard[k] <= t.streams[i].writes[k]
  {
    RunIsHeard(limits, w, events, i, channel);
    var heard, t := Heard(limits, w, events, channel), Run(limits, w, events);
    assert IsNew(w.streams[i]) && SayInv(t.streams[i]);
    assert [] + heard == heard;
  }

  ghost predicate IsNew(s: Stream) {
    s.writing == [] && s.writes == [] && s.said == []
  }
}
