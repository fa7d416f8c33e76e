/** The device's telemetry: which channel is sent when, one at a time, in turn. */
module TelemetryManager {
  import opened Bytes
  import Varuint

  const MIN_RATE_MS := 10

  /** A channel; `marks` counts how often a poll marked it. */
  datatype Channel = Channel(rate: int, next: int, toSend: bool, marks: nat)

  const FRESH := Channel(0, 1, false, 0)

  /** `grants` lists the channels sent so far, `inFlight` counts writes started and not finished. */
  datatype State = State(channels: seq<Channel>, outstanding: bool, lastSent: nat, grants: seq<nat>, inFlight: int)

  datatype Event = Poll | Update(i: nat) | SetRate(i: nat, rate: int) | Stop | WriteDone

  /** A long stored in an int. */
  function Int32(v: int): (r: int)
    ensures -0x8000_0000 <= r < 0x8000_0000
    ensures -0x8000_0000 <= v < 0x8000_0000 ==> r == v
  {
    (v + 0x8000_0000) % 0x1_0000_0000 - 0x8000_0000
  }

  function Rated(ch: Channel, rate: int): Channel {
    if rate == 0 then ch.(rate := 0, next := 1)
    else if rate < MIN_RATE_MS then ch.(rate := 1, next := 1)
    else ch.(rate := Int32(rate), next := Int32(rate))
  }

  function Ticked(ch: Channel): Channel {
    if ch.rate > 1 && ch.next > 0 then
      if ch.next == 1 then ch.(next := ch.rate, toSend := true, marks := ch.marks + 1) else ch.(next := ch.next - 1)
    else ch
  }

  function TickAll(chs: seq<Channel>): (r: seq<Channel>)
    ensures |r| == |chs| && forall i :: 0 <= i < |chs| ==> r[i] == Ticked(chs[i])
  {
    if chs == [] then [] else [Ticked(chs[0])] + TickAll(chs[1..])
  }

  function StopAll(chs: seq<Channel>): (r: seq<Channel>)
    ensures |r| == |chs| && forall i :: 0 <= i < |chs| ==> r[i] == chs[i].(toSend := false, rate := 0)
  {
    if chs == [] then [] else [chs[0].(toSend := false, rate := 0)] + StopAll(chs[1..])
  }

  /** The `i`-th channel after the last one sent, in a circle of `n`. */
  function After(last: nat, i: nat, n: nat): (k: nat)
    requires last < n && i < n
    ensures k < n
  {
    if last + 1 + i < n then last + 1 + i else last + 1 + i - n
  }

  lemma AfterIsModulo(last: nat, i: nat, n: nat)
    requires last < n && i < n
    ensures (i + last + 1) % n == After(last, i, n)
  {
    if last + 1 + i < n {
      Varuint.ModuloUnique(i + last + 1, n, 0, i + last + 1);
    } else {
      Varuint.ModuloUnique(i + last + 1, n, 1, i + last + 1 - n);
    }
  }

  /** How far after the last one sent a channel comes. */
  function Distance(last: nat, k: nat, n: nat): (d: nat)
    requires last < n && k < n
    ensures d < n && After(last, d, n) == k
  {
    if k > last then k - last - 1 else k + n - last - 1
  }

  /** The first marked channel, from the `i`-th after the last one sent. */
  function Pick(chs: seq<Channel>, last: nat, i: nat): (r: Option<nat>)
    requires last < |chs| && i <= |chs|
    ensures r.Some? ==> r.value < |chs| && chs[r.value].toSend && Distance(last, r.value, |chs|) >= i
    ensures r.Some? ==> forall j :: i <= j < Distance(last, r.value, |chs|) ==> !chs[After(last, j, |chs|)].toSend
    ensures r == None ==> forall j :: i <= j < |chs| ==> !chs[After(last, j, |chs|)].toSend
    decreases |chs| - i
  {
    if i == |chs| then None
    else
      var k := After(last, i, |chs|);
      if chs[k].toSend then Some(k) else Pick(chs, last, i + 1)
  }

  predicate InRange(s: State) {
    s.channels == [] || s.lastSent < |s.channels|
  }

  /** MaybeStartSend. */
  function MaybeSend(s: State): State
    requires InRange(s)
  {
    if s.outstanding || s.channels == [] then s
    else
      match Pick(s.channels, s.lastSent, 0)
      case None => s
      case Some(k) =>
        s.(channels := s.channels[k := s.channels[k].(toSend := false)], outstanding := true, lastSent := k,
           grants := s.grants + [k], inFlight := s.inFlight + 1)
  }

  /** Calls name registered channels; a write finishes only when one is out. */
  predicate Allowed(s: State, e: Event) {
    match e
    case Update(i) => i < |s.channels|
    case SetRate(i, _) => i < |s.channels|
    case WriteDone => s.inFlight > 0
    case _ => true
  }

  /** One write at most is out, and the flag says whether. */
  ghost predicate Inv(s: State) {
    InRange(s) && s.inFlight == if s.outstanding then 1 else 0
  }

  function Step(s: State, e: Event): (t: State)
    requires InRange(s) && Allowed(s, e)
    ensures Inv(s) ==> Inv(t) && |t.channels| == |s.channels|
  {
    match e
    case Poll => MaybeSend(s.(channels := TickAll(s.channels)))
    case Update(i) =>
      if s.channels[i].rate == 1 then MaybeSend(s.(channels := s.channels[i := s.channels[i].(toSend := true)])) else s
    case SetRate(i, rate) => s.(channels := s.channels[i := Rated(s.channels[i], rate)])
    case Stop => s.(channels := StopAll(s.channels))
    case WriteDone => s.(outstanding := false, inFlight := s.inFlight - 1)
  }

  function Run(s: State, events: seq<Event>): (t: State)
    requires Inv(s)
    ensures Inv(t) && |t.channels| == |s.channels| && s.grants <= t.grants
    decreases |events|
  {
    if events == [] || !Allowed(s, events[0]) then s
    else Run(Step(s, events[0]), events[1..])
  }

  // ----- fairness

  /** While a marked channel waits, a step either grants it, or keeps it marked and brings it nearer by every grant. */
  lemma StepIsFair(s: State, e: Event, i: nat)
    requires Inv(s) && Allowed(s, e) && e != Stop && i < |s.channels| && s.channels[i].toSend
    ensures
      var t, n := Step(s, e), |s.channels|;
      && InRange(t)
      && (t.grants == s.grants ==> t.channels[i].toSend && t.lastSent == s.lastSent)
      && (t.grants != s.grants ==>
            t.grants == s.grants + [t.lastSent]
            && (t.lastSent != i ==> t.channels[i].toSend && Distance(t.lastSent, i, n) < Distance(s.lastSent, i, n)))
  {
    var n := |s.channels|;
    if e.Poll? {
      SendIsFair(s.(channels := TickAll(s.channels)), i);
    } else if e.Update? && s.channels[e.i].rate == 1 {
      SendIsFair(s.(channels := s.channels[e.i := s.channels[e.i].(toSend := true)]), i);
    }
  }

  lemma SendIsFair(s: State, i: nat)
    requires Inv(s) && i < |s.channels| && s.channels[i].toSend
    ensures
      var t, n := MaybeSend(s), |s.channels|;
      && InRange(t)
      && (t.grants == s.grants ==> t == s)
      && (t.grants != s.grants ==>
            t.grants == s.grants + [t.lastSent]
            && (t.lastSent != i ==> t.channels[i].toSend && Distance(t.lastSent, i, n) < Distance(s.lastSent, i, n)))
  {
    var n := |s.channels|;
    if !s.outstanding {
      var d := Distance(s.lastSent, i, n);
      assert s.channels[After(s.lastSent, d, n)].toSend;
      var k := Pick(s.channels, s.lastSent, 0).value;
      if k != i {
        NearerAfter(s.lastSent, k, i, n);
      }
    }
  }

  /** In a circle, what comes later is nearer once what came earlier is behind. */
  lemma NearerAfter(last: nat, k: nat, i: nat, n: nat)
    requires last < n && k < n && i < n && Distance(last, k, n) < Distance(last, i, n)
    ensures Distance(k, i, n) == Distance(last, i, n) - Distance(last, k, n) - 1
  {
  }

  predicate NoStop(events: seq<Event>) {
    forall k :: 0 <= k < |events| ==> events[k] != Stop
  }

  /** In any run without a stop, a marked channel waits for at most as many grants to others as its distance from the
      last one sent, which is below the number of channels. */
  lemma {:induction false} WaitIsBounded(s: State, events: seq<Event>, i: nat)
    requires Inv(s) && NoStop(events) && i < |s.channels| && s.channels[i].toSend
    requires i !in Run(s, events).grants[|s.grants|..]
    ensures
      var t := Run(s, events);
      && |s.grants| <= |t.grants| && t.channels[i].toSend
      && |t.grants| - |s.grants| <= Distance(s.lastSent, i, |s.channels|) < |s.channels|
    decreases |events|
  {
    if events != [] && Allowed(s, events[0]) {
      var u := Step(s, events[0]);
      StepIsFair(s, events[0], i);
      var t := Run(s, events);
      if u.grants != s.grants {
        assert t.grants[|s.grants|] == u.grants[|s.grants|] == u.lastSent;
        assert u.lastSent in t.grants[|s.grants|..] by { assert t.grants[|s.grants|..][0] == u.lastSent; }
      }
      assert forall g :: g in t.grants[|u.grants|..] ==> g in t.grants[|s.grants|..] by {
        assert t.grants[|s.grants|..] == t.grants[|s.grants|..|u.grants|] + t.grants[|u.grants|..];
      }
      WaitIsBounded(u, events[1..], i);
    }
  }

  /** A poll with the stream free and a channel marked starts a write. */
  lemma PollSends(s: State, i: nat)
    requires Inv(s) && !s.outstanding && i < |s.channels| && s.channels[i].toSend
    ensures Step(s, Poll).outstanding && |Step(s, Poll).grants| == |s.grants| + 1
  {
    var chs := TickAll(s.channels);
    assert chs[After(s.lastSent, Distance(s.lastSent, i, |chs|), |chs|)].toSend;
  }

  /** What each step does to a channel's mark: only a poll that is its turn, or an update when it is sent on those, sets
      it; only a stop, or being sent, clears it; and what is sent was marked and no longer is. */
  lemma MarksAreSent(s: State, e: Event, i: nat)
    requires Inv(s) && Allowed(s, e) && i < |s.channels|
    ensures
      var t, ch := Step(s, e), s.channels[i];
      var marked := (e == Poll && t.channels[i].marks > ch.marks) || (e == Update(i) && ch.rate == 1);
      var sent := t.grants == s.grants + [i];
      && (t.grants == s.grants || t.grants == s.grants + [t.lastSent])
      && (e != Stop ==> (t.channels[i].toSend <==> (ch.toSend || marked) && !sent))
      && (sent ==> ch.toSend || marked)
      && (e == Stop ==> !t.channels[i].toSend && !sent)
  {
    var t := Step(s, e);
    if t.grants == s.grants + [i] {
      assert t.grants[|s.grants|] == i;
    }
    assert t.grants != s.grants ==> t.grants == s.grants + [t.lastSent];
  }

  /** After a stop nothing is sent until some channel is given a rate. */
  lemma {:induction false} StopSilences(s: State, events: seq<Event>)
    requires Inv(s) && forall k :: 0 <= k < |events| ==> !events[k].SetRate?
    requires forall i :: 0 <= i < |s.channels| ==> Silent(s.channels[i])
    ensures Run(s, events).grants == s.grants
    decreases |events|
  {
    if events != [] && Allowed(s, events[0]) {
      var t := Step(s, events[0]);
      if events[0] == Poll {
        assert TickAll(s.channels) == s.channels;
      }
      StopSilences(t, events[1..]);
    }
  }

  predicate Silent(ch: Channel) {
    ch.rate == 0 && !ch.toSend
  }

  lemma StopIsSilent(s: State, i: nat)
    requires Inv(s) && i < |s.channels|
    ensures |Step(s, Stop).channels| == |s.channels| && Silent(Step(s, Stop).channels[i])
  {
  }

  /** A channel is sent on updates if and only if it was last given a rate other than zero and below 10, or one that
      ends up as 1 in an int. */
  lemma SentOnUpdatesIff(s: State, i: nat, r: int)
    requires Inv(s) && i < |s.channels|
    ensures Step(s, SetRate(i, r)).channels[i].rate == 1 <==> (r != 0 && r < 10) || (r >= 10 && Int32(r) == 1)
  {
  }

  /** An update of a channel that is sent on updates marks it, and starts a write when none is out: its own, unless
      another marked channel comes first.  An update of any other channel does nothing. */
  lemma UpdateMarks(s: State, i: nat)
    requires Inv(s) && i < |s.channels|
    ensures
      var t := Step(s, Update(i));
      if s.channels[i].rate != 1 then t == s
      else
        && (t.channels[i].toSend || t.grants == s.grants + [i])
        && (s.outstanding ==> t.grants == s.grants && t.channels[i].toSend)
        && (!s.outstanding ==> t.outstanding && |t.grants| == |s.grants| + 1)
        && forall j :: 0 <= j < |s.channels| && j != i && t.lastSent != j ==> t.channels[j] == s.channels[j]
  {
    if s.channels[i].rate == 1 {
      var u := s.(channels := s.channels[i := s.channels[i].(toSend := true)]);
      SendIsFair(u, i);
      var chs := u.channels;
      assert chs[After(s.lastSent, Distance(s.lastSent, i, |chs|), |chs|)].toSend;
    }
  }

  /** So in any run without a stop that begins with such an update, the channel is sent after at most as many grants to
      others as there are other channels. */
  lemma UpdatedIsSent(s: State, events: seq<Event>, i: nat)
    requires Inv(s) && NoStop(events) && i < |s.channels| && s.channels[i].rate == 1
    requires |Run(s, [Update(i)] + events).grants| >= |s.grants| + |s.channels|
    ensures i in Run(s, [Update(i)] + events).grants[|s.grants|..]
  {
    var t, end := Step(s, Update(i)), Run(s, [Update(i)] + events);
    UpdateFirst(s, events, i);
    if i !in end.grants[|s.grants|..] {
      UpdateIsFair(s, i);
      LaterGrants(s.grants, t.grants, end.grants, i);
      WaitIsBounded(t, events, i);
    }
  }

  lemma UpdateFirst(s: State, events: seq<Event>, i: nat)
    requires Inv(s) && i < |s.channels|
    ensures Run(s, [Update(i)] + events) == Run(Step(s, Update(i)), events)
  {
    assert ([Update(i)] + events)[1..] == events;
  }

  /** As any step is, for the channel it marks. */
  lemma UpdateIsFair(s: State, i: nat)
    requires Inv(s) && i < |s.channels| && s.channels[i].rate == 1
    ensures
      var t, n := Step(s, Update(i)), |s.channels|;
      && (t.grants == s.grants ==> t.channels[i].toSend)
      && (t.grants != s.grants ==> t.grants == s.grants + [t.lastSent] && t.lastSent < n)
      && (t.grants != s.grants && t.lastSent != i ==>
            t.channels[i].toSend && Distance(t.lastSent, i, n) < Distance(s.lastSent, i, n))
  {
    SendIsFair(s.(channels := s.channels[i := s.channels[i].(toSend := true)]), i);
  }

  lemma LaterGrants(a: seq<nat>, b: seq<nat>, c: seq<nat>, i: nat)
    requires a <= b <= c && i !in c[|a|..]
    ensures i !in c[|b|..] && (|b| > |a| ==> b[|a|] != i)
  {
    assert forall k :: |a| <= k < |c| ==> c[|a|..][k - |a|] == c[k];
    assert forall k :: |b| <= k < |c| ==> c[|b|..][k - |b|] == c[k];
  }

  // ----- rates

  function Polls(events: seq<Event>): nat {
    if events == [] then 0 else (if events[0] == Poll then 1 else 0) + Polls(events[1..])
  }

  /** The events leave the rate of channel `i` alone, and all of them can happen. */
  predicate LeavesRate(s: State, events: seq<Event>, i: nat)
    requires Inv(s)
    decreases |events|
  {
    events != [] ==>
      && Allowed(s, events[0]) && events[0] != Stop && !(events[0].SetRate? && events[0].i == i)
      && LeavesRate(Step(s, events[0]), events[1..], i)
  }

  /** After `k` polls at rate `r` a channel was marked `k / r` times. */
  ghost predicate OnRate(ch: Channel, r: nat, k: nat, before: nat) {
    ch.rate == r && exists q: nat :: Turns(ch, r, k, before, q)
  }

  ghost predicate Turns(ch: Channel, r: nat, k: nat, before: nat, q: nat) {
    ch.marks == before + q && 0 < ch.next <= r && k == q * r + (r - ch.next)
  }

  lemma TickOnRate(ch: Channel, r: nat, k: nat, before: nat)
    requires r >= 2 && OnRate(ch, r, k, before)
    ensures OnRate(Ticked(ch), r, k + 1, before)
  {
    var q: nat :| Turns(ch, r, k, before, q);
    if ch.next == 1 {
      assert (q + 1) * r == q * r + r;
      assert Turns(Ticked(ch), r, k + 1, before, q + 1);
    } else {
      assert Turns(Ticked(ch), r, k + 1, before, q);
    }
  }

  lemma MaybeSendKeepsRate(s: State, i: nat)
    requires Inv(s) && i < |s.channels|
    ensures MaybeSend(s).channels[i] in {s.channels[i], s.channels[i].(toSend := false)}
  {
  }

  lemma StepOnRate(s: State, e: Event, i: nat, r: nat, k: nat, before: nat)
    requires Inv(s) && Allowed(s, e) && i < |s.channels| && e != Stop && !(e.SetRate? && e.i == i)
    requires r >= 2 && OnRate(s.channels[i], r, k, before)
    ensures OnRate(Step(s, e).channels[i], r, if e == Poll then k + 1 else k, before)
  {
    var ch := s.channels[i];
    var q: nat :| Turns(ch, r, k, before, q);
    if e.Poll? {
      TickOnRate(ch, r, k, before);
      MaybeSendKeepsRate(s.(channels := TickAll(s.channels)), i);
      var p: nat :| Turns(Ticked(ch), r, k + 1, before, p);
      assert Turns(Step(s, e).channels[i], r, k + 1, before, p);
    } else {
      if e.Update? && s.channels[e.i].rate == 1 {
        MaybeSendKeepsRate(s.(channels := s.channels[e.i := s.channels[e.i].(toSend := true)]), i);
      }
      assert Turns(Step(s, e).channels[i], r, k, before, q);
    }
  }

  lemma {:induction false} RunOnRate(s: State, events: seq<Event>, i: nat, r: nat, k: nat, before: nat)
    requires Inv(s) && LeavesRate(s, events, i) && i < |s.channels|
    requires r >= 2 && OnRate(s.channels[i], r, k, before)
    ensures OnRate(Run(s, events).channels[i], r, k + Polls(events), before)
    decreases |events|
  {
    if events != [] {
      StepOnRate(s, events[0], i, r, k, before);
      RunOnRate(Step(s, events[0]), events[1..], i, r, if events[0] == Poll then k + 1 else k, before);
    }
  }

  /** A channel that no poll marks stays unmarked by polls. */
  lemma {:induction false} RunWhenOff(s: State, events: seq<Event>, i: nat)
    requires Inv(s) && LeavesRate(s, events, i) && i < |s.channels| && s.channels[i].rate <= 1
    ensures Run(s, events).channels[i].marks == s.channels[i].marks
    decreases |events|
  {
    if events != [] {
      var e := events[0];
      if e.Poll? {
        MaybeSendKeepsRate(s.(channels := TickAll(s.channels)), i);
      } else if e.Update? && s.channels[e.i].rate == 1 {
        MaybeSendKeepsRate(s.(channels := s.channels[e.i := s.channels[e.i].(toSend := true)]), i);
      }
      RunWhenOff(Step(s, e), events[1..], i);
    }
  }

  /** How many of `k` polls mark a channel that was set to rate `r`: an int has to hold the rate, and one that ends up
      below 2 there is no rate at all. */
  function Marks(r: int, k: nat): nat {
    var rate := Int32(r);
    if rate <= 1 then 0 else k / rate
  }

  /** Set to any rate of at least 10, a channel is marked by exactly that many of the next polls, whatever else goes
      on. */
  lemma MarkedAtItsRate(s: State, i: nat, r: int, events: seq<Event>)
    requires Inv(s) && i < |s.channels| && MIN_RATE_MS <= r
    requires LeavesRate(Step(s, SetRate(i, r)), events, i)
    ensures Run(Step(s, SetRate(i, r)), events).channels[i].marks == s.channels[i].marks + Marks(r, Polls(events))
  {
    var u, rate := Step(s, SetRate(i, r)), Int32(r);
    if rate <= 1 {
      RunWhenOff(u, events, i);
    } else {
      assert Turns(u.channels[i], rate, 0, s.channels[i].marks, 0);
      RunOnRate(u, events, i, rate, 0, s.channels[i].marks);
      var ch := Run(u, events).channels[i];
      var q: nat :| Turns(ch, rate, Polls(events), s.channels[i].marks, q);
      QuotientIs(Polls(events), rate, q, rate - ch.next);
    }
  }

  /** That is every `r`-th poll if and only if an int can hold `r`. */
  lemma EveryRthPollIff(r: int)
    requires MIN_RATE_MS <= r
    ensures (forall k: nat :: Marks(r, k) == k / r) <==> r < 0x8000_0000
  {
    var rate := Int32(r);
    if r >= 0x8000_0000 {
      if rate <= 1 {
        QuotientIs(r, r, 1, 0);
        assert Marks(r, r) != r / r;
      } else {
        QuotientIs(rate, rate, 1, 0);
        QuotientIs(rate, r, 0, rate);
        assert Marks(r, rate) != rate / r;
      }
    }
  }

  lemma QuotientIs(k: nat, r: nat, q: nat, rest: nat)
    requires 0 < r && rest < r && k == q * r + rest
    ensures k / r == q
  {
    var d := k / r - q;
    assert k == r * (k / r) + k % r;
    assert r * d == r * (k / r) - q * r;
    assert d > 0 ==> r * d >= r;
    assert d < 0 ==> r * d + r <= 0;
  }

  // ----- the class

  class Manager {
    var elements: seq<Channel>
    var outstandingWrite: bool
    var lastSent: nat
    ghost var grants: seq<nat>
    ghost var inFlight: int

    ghost function Now(): State
      reads this
    {
      State(elements, outstandingWrite, lastSent, grants, inFlight)
    }

    ghost predicate Valid()
      reads this
    {
      Inv(Now())
    }

    constructor (n: nat)
      ensures Valid() && |elements| == n && grants == [] && !outstandingWrite
      ensures forall i :: 0 <= i < n ==> elements[i] == FRESH
    {
      elements := seq(n, _ => FRESH);
      outstandingWrite, lastSent := false, 0;
      grants, inFlight := [], 0;
    }

    method MaybeStartSend()
      requires Valid()
      modifies this
      ensures Valid() && Now() == MaybeSend(old(Now()))
    {
      if outstandingWrite {
        return;
      }
      for i := 0 to |elements|
        invariant Now() == old(Now())
        invariant elements != [] ==> Pick(elements, lastSent, 0) == Pick(elements, lastSent, i)
      {
        AfterIsModulo(lastSent, i, |elements|);
        var toCheck := (i + lastSent + 1) % |elements|;
        if elements[toCheck].toSend {
          elements := elements[toCheck := elements[toCheck].(toSend := false)];
          outstandingWrite := true;
          lastSent := toCheck;
          grants, inFlight := grants + [toCheck], inFlight + 1;
          return;
        }
      }
    }

    method PollMillisecond()
      requires Valid()
      modifies this
      ensures Valid() && Now() == Step(old(Now()), Poll)
    {
      for i := 0 to |elements|
        invariant Valid() && Now() == old(Now()).(channels := elements) && |elements| == |old(elements)|
        invariant forall k :: 0 <= k < |elements| ==> elements[k] == if k < i then Ticked(old(elements)[k]) else old(elements)[k]
      {
        var element := elements[i];
        if element.rate > 1 && element.next > 0 {
          element := element.(next := element.next - 1);
          if element.next == 0 {
            element := element.(toSend := true, next := element.rate, marks := element.marks + 1);
          }
          elements := elements[i := element];
        }
      }
      assert elements == TickAll(old(elements));
      MaybeStartSend();
    }

    method UpdateItem(i: nat)
      requires Valid() && i < |elements|
      modifies this
      ensures Valid() && Now() == Step(old(Now()), Update(i))
    {
      if elements[i].rate == 1 {
        elements := elements[i := elements[i].(toSend := true)];
        MaybeStartSend();
      }
    }

    method Rate(i: nat, rate: int)
      requires Valid() && i < |elements|
      modifies this
      ensures Valid() && Now() == Step(old(Now()), SetRate(i, rate))
    {
      var element := elements[i].(rate := Int32(rate));
      if rate == 0 {
        element := element.(next := 1);
      } else if rate < MIN_RATE_MS {
        element := element.(rate := 1, next := 1);
      } else {
        element := element.(next := Int32(rate));
      }
      elements := elements[i := element];
    }

    method StopAllChannels()
      requires Valid()
      modifies this
      ensures Valid() && Now() == Step(old(Now()), Stop)
    {
      for i := 0 to |elements|
        invariant Valid() && Now() == old(Now()).(channels := elements) && |elements| == |old(elements)|
        invariant forall k :: 0 <= k < |elements| ==>
                    elements[k] == if k < i then old(elements)[k].(toSend := false, rate := 0) else old(elements)[k]
      {
        elements := elements[i := elements[i].(toSend := false, rate := 0)];
      }
      assert elements == StopAll(old(elements));
    }

    method HandleWrite()
      requires Valid() && inFlight > 0
      modifies this
      ensures Valid() && Now() == Step(old(Now()), WriteDone)
    {
      outstandingWrite := false;
      inFlight := inFlight - 1;
    }
  }
}
