/** The lock-free event queue: any number of Queue calls interleaved, one atomic operation at a time, with a single
    poller.  Every call carries a distinct identity, which stands for the function it queues. */
module EventQueue {
  import opened Bytes

  type CallId = nat

  /** Entry::state, bit by bit: 0x01, 0x02 and 0x04. */
  datatype Bits = Bits(claimed: bool, ready: bool, polling: bool)

  const ZERO := Bits(false, false, false)
  const ONE := Bits(true, false, false)
  const THREE := Bits(true, true, false)
  const SEVEN := Bits(true, true, true)

  const BIT1 := Bits(true, false, false)
  const BIT2 := Bits(false, true, false)
  const BIT4 := Bits(false, false, true)

  function Or(a: Bits, b: Bits): Bits {
    Bits(a.claimed || b.claimed, a.ready || b.ready, a.polling || b.polling)
  }

  datatype Slot = Slot(state: Bits, function_: Option<CallId>)

  /** The next atomic operation of a Queue call. */
  datatype QueuePc =
    | Scan(i: nat)      // load entries[i].state, or fall off the end of the loop
    | Claim(i: nat)     // fetch_or(0x01)
    | Assign(i: nat)    // entry.function = function
    | Publish(i: nat)   // fetch_or(0x02)
    | Increment         // count_++
    | Done
    | Full              // every slot was taken

  /** The next atomic operation of the poller. */
  datatype PollPc =
    | Idle
    | Check(i: nat)                              // load count_, or fall off the end of the loop
    | Load(i: nat)                               // load entries[i].state
    | Lock(i: nat)                               // fetch_or(0x04)
    | Copy(i: nat)                               // copy = entry.function
    | Clear(i: nat, copy: Option<CallId>)        // entry.function = {}
    | Release(i: nat, copy: Option<CallId>)      // fetch_and(0)
    | Run(i: nat, copy: Option<CallId>)          // copy()
    | Decrement(i: nat)                          // count_--

  /** `ok` says that every assertion on a slot's state has held and no empty function was called; `ran` lists the
      functions in the order they ran; `atStart` holds the events that were ready when the current Poll began. */
  datatype State = State(
    slots: seq<Slot>,
    count: int,
    calls: map<CallId, QueuePc>,
    poller: PollPc,
    ok: bool,
    ran: seq<CallId>,
    atStart: set<CallId>)

  datatype Step = Begin(c: CallId) | Queue(c: CallId) | Poll

  function Init(size: nat): State {
    State(seq(size, _ => Slot(ZERO, None)), 0, map[], Idle, true, [], {})
  }

  function SetState(s: State, i: nat, b: Bits): State
    requires i < |s.slots|
  {
    s.(slots := s.slots[i := s.slots[i].(state := b)])
  }

  function SetFunction(s: State, i: nat, f: Option<CallId>): State
    requires i < |s.slots|
  {
    s.(slots := s.slots[i := s.slots[i].(function_ := f)])
  }

  function At(s: State, c: CallId, pc: QueuePc): State {
    s.(calls := s.calls[c := pc])
  }

  /** One atomic operation of call `c`. */
  function QueueStep(s: State, c: CallId): State
    requires c in s.calls
  {
    match s.calls[c]
    case Scan(i) =>
      if i >= |s.slots| then At(s, c, Full)
      else if s.slots[i].state == ZERO then At(s, c, Claim(i))
      else At(s, c, Scan(i + 1))
    case Claim(i) =>
      if i >= |s.slots| then s else
      var was := s.slots[i].state;
      At(SetState(s, i, Or(was, BIT1)), c, if was != ZERO then Scan(i + 1) else Assign(i))
    case Assign(i) =>
      if i >= |s.slots| then s else
      At(SetFunction(s, i, Some(c)), c, Publish(i))
    case Publish(i) =>
      if i >= |s.slots| then s else
      var was := s.slots[i].state;
      At(SetState(s, i, Or(was, BIT2)), c, Increment).(ok := s.ok && was == ONE)
    case Increment => At(s, c, Done).(count := s.count + 1)
    case Done => s
    case Full => s
  }

  /** One atomic operation of the poller; from `Idle` it is the call of Poll. */
  function PollStep(s: State): State {
    match s.poller
    case Idle => s.(poller := Check(0), atStart := ReadyCalls(s))
    case Check(i) =>
      s.(poller := if i >= |s.slots| || s.count == 0 then Idle else Load(i))
    case Load(i) =>
      if i >= |s.slots| then s
      else if s.slots[i].state == THREE then s.(poller := Lock(i))
      else s.(poller := Check(i + 1), ok := s.ok && s.slots[i].state != SEVEN)
    case Lock(i) =>
      if i >= |s.slots| then s else
      var was := s.slots[i].state;
      SetState(s, i, Or(was, BIT4)).(poller := Copy(i), ok := s.ok && was == THREE)
    case Copy(i) =>
      if i >= |s.slots| then s else s.(poller := Clear(i, s.slots[i].function_))
    case Clear(i, copy) =>
      if i >= |s.slots| then s else SetFunction(s, i, None).(poller := Release(i, copy))
    case Release(i, copy) =>
      if i >= |s.slots| then s else
      var was := s.slots[i].state;
      SetState(s, i, ZERO).(poller := Run(i, copy), ok := s.ok && was == SEVEN)
    case Run(i, copy) =>
      s.(poller := Decrement(i), ok := s.ok && copy.Some?,
         ran := if copy.Some? then s.ran + [copy.value] else s.ran)
    case Decrement(i) => s.(poller := Check(i + 1), count := s.count - 1)
  }

  function Next(s: State, step: Step): State {
    match step
    case Begin(c) => if c in s.calls then s else At(s, c, Scan(0))
    case Queue(c) => if c in s.calls then QueueStep(s, c) else s
    case Poll => PollStep(s)
  }

  /** Any interleaving whatever. */
  function Exec(s: State, steps: seq<Step>): State
    decreases |steps|
  {
    if steps == [] then s else Exec(Next(s, steps[0]), steps[1..])
  }

  // ----- what the state means

  /** The call whose published function waits in slot `i`. */
  function Pending(slots: seq<Slot>, i: nat): Option<CallId>
    requires i < |slots|
  {
    if slots[i].state == THREE then slots[i].function_ else None
  }

  /** The function of `c` waits in a slot at or after `from`. */
  ghost predicate Waiting(slots: seq<Slot>, c: CallId, from: nat) {
    exists i: nat :: from <= i < |slots| && Pending(slots, i) == Some(c)
  }

  /** The call whose function the poller has in hand and has not yet called. */
  function InHand(slots: seq<Slot>, poller: PollPc): Option<CallId> {
    match poller
    case Copy(i) => if i < |slots| then slots[i].function_ else None
    case Clear(_, copy) => copy
    case Release(_, copy) => copy
    case Run(_, copy) => copy
    case _ => None
  }

  predicate Holding(poller: PollPc) {
    poller.Copy? || poller.Clear? || poller.Release? || poller.Run?
  }

  /** Call `c` has claimed slot `i` and not yet published it. */
  predicate Owns(s: State, c: CallId, i: nat) {
    c in s.calls && (s.calls[c] == Assign(i) || s.calls[c] == Publish(i))
  }

  predicate Assigned(s: State, c: CallId, i: nat) {
    c in s.calls && s.calls[c] == Publish(i)
  }

  predicate Published(s: State, c: CallId) {
    c in s.calls && (s.calls[c] == Increment || s.calls[c] == Done)
  }

  predicate PollerLocks(poller: PollPc, i: nat) {
    match poller
    case Copy(j) => i == j
    case Clear(j, _) => i == j
    case Release(j, _) => i == j
    case _ => false
  }

  function ReadyCalls(s: State): set<CallId> {
    set i | 0 <= i < |s.slots| && Pending(s.slots, i).Some? :: Pending(s.slots, i).value
  }

  /** Calls between publishing their function and incrementing the count. */
  function InFlight(s: State): set<CallId> {
    set c | c in s.calls && s.calls[c] == Increment
  }

  function ReadySlots(slots: seq<Slot>): nat {
    if slots == [] then 0 else (if slots[0].state.ready then 1 else 0) + ReadySlots(slots[1..])
  }

  /** The first slot the current Poll has still to look at. */
  function Position(poller: PollPc): nat {
    match poller
    case Idle => 0
    case Check(i) => i
    case Load(i) => i
    case Lock(i) => i
    case Copy(i) => i + 1
    case Clear(i, _) => i + 1
    case Release(i, _) => i + 1
    case Run(i, _) => i + 1
    case Decrement(i) => i + 1
  }

  // ----- the invariant, in parts

  /** Who may touch a slot: state 1 has exactly one claimant, state 7 is the poller's, no other state exists. */
  ghost predicate Ownership(s: State) {
    && (forall i :: 0 <= i < |s.slots| ==> s.slots[i].state in {ZERO, ONE, THREE, SEVEN})
    && (forall c: CallId, i: nat :: Owns(s, c, i) ==> i < |s.slots| && s.slots[i].state == ONE)
    && (forall c: CallId, d: CallId, i: nat :: Owns(s, c, i) && Owns(s, d, i) ==> c == d)
    && (forall i: nat :: i < |s.slots| && s.slots[i].state == ONE ==> exists c :: Owns(s, c, i))
    && (forall i: nat :: i < |s.slots| ==> (s.slots[i].state == SEVEN <==> PollerLocks(s.poller, i)))
  }

  /** The pending operations name real slots, and a lock is about to meet a ready one. */
  ghost predicate InRange(s: State) {
    && (forall c :: c in s.calls && s.calls[c].Claim? ==> s.calls[c].i < |s.slots|)
    && (!s.poller.Idle? && !s.poller.Check? ==> s.poller.i < |s.slots|)
    && (s.poller.Lock? ==> s.slots[s.poller.i].state == THREE)
  }

  /** Each published function is in exactly one place: one slot, the poller's hand, or the list of those run. */
  ghost predicate Custody(s: State) {
    && (forall c: CallId, i: nat :: Assigned(s, c, i) && i < |s.slots| ==> s.slots[i].function_ == Some(c))
    && (forall i: nat :: i < |s.slots| && s.slots[i].state == THREE ==>
          Pending(s.slots, i).Some? && Published(s, Pending(s.slots, i).value) && Pending(s.slots, i).value !in s.ran)
    && (forall i: nat, j: nat :: i < j < |s.slots| && Pending(s.slots, i).Some? ==>
          Pending(s.slots, i) != Pending(s.slots, j))
    && (Holding(s.poller) ==>
          var h := InHand(s.slots, s.poller);
          h.Some? && Published(s, h.value) && h.value !in s.ran && !Waiting(s.slots, h.value, 0))
    && (forall j, k :: 0 <= j < k < |s.ran| ==> s.ran[j] != s.ran[k])
    && (forall c :: c in s.ran ==> Published(s, c))
  }

  /** No published function is lost. */
  ghost predicate NoLoss(s: State) {
    forall c :: Published(s, c) ==> c in s.ran || InHand(s.slots, s.poller) == Some(c) || Waiting(s.slots, c, 0)
  }

  /** What the count stands for. */
  ghost predicate Counting(s: State) {
    && s.count + |InFlight(s)| == ReadySlots(s.slots) + (if s.poller.Run? || s.poller.Decrement? then 1 else 0)
    && s.count >= 0
    && (!s.poller.Idle? && !s.poller.Check? ==> s.count >= 1)
  }

  /** Nothing that was ready when Poll began is behind it. */
  ghost predicate Progress(s: State) {
    !s.poller.Idle? ==>
      forall c :: c in s.atStart ==>
        c in s.ran || InHand(s.slots, s.poller) == Some(c) || Waiting(s.slots, c, Position(s.poller))
  }

  ghost predicate Inv(s: State) {
    s.ok && Ownership(s) && InRange(s) && Custody(s) && NoLoss(s) && Counting(s) && Progress(s)
  }

  // ----- every step keeps it

  lemma {:induction false} ReadySlotsUpdate(slots: seq<Slot>, i: nat, x: Slot)
    requires i < |slots|
    ensures ReadySlots(slots[i := x]) ==
            ReadySlots(slots) - (if slots[i].state.ready then 1 else 0) + (if x.state.ready then 1 else 0)
  {
    if i > 0 {
      ReadySlotsUpdate(slots[1..], i - 1, x);
      assert slots[i := x][1..] == slots[1..][i - 1 := x];
    } else {
      assert slots[i := x][1..] == slots[1..];
    }
  }

  lemma {:induction false} NoReadySlots(slots: seq<Slot>)
    ensures ReadySlots(slots) == 0 <==> forall i :: 0 <= i < |slots| ==> !slots[i].state.ready
  {
    if slots != [] {
      NoReadySlots(slots[1..]);
      assert forall i :: 1 <= i < |slots| ==> slots[i] == slots[1..][i - 1];
    }
  }

  lemma {:induction false} InitInv(size: nat)
    ensures Inv(Init(size))
  {
    var s := Init(size);
    NoReadySlots(s.slots);
    assert InFlight(s) == {};
  }

  lemma InFlightSame(s: State, s': State, c: CallId)
    requires c in s'.calls && s'.calls == s.calls[c := s'.calls[c]]
    ensures s'.calls[c] == Increment ==> InFlight(s') == InFlight(s) + {c}
    ensures s'.calls[c] != Increment ==> InFlight(s') == InFlight(s) - {c}
  {
  }

  /** `s'` differs from `s` only in where the calls are, and in ways that touch no slot and no published function. */
  ghost predicate SameView(s: State, s': State) {
    && s'.slots == s.slots && s'.poller == s.poller && s'.ran == s.ran && s'.atStart == s.atStart
    && (forall d: CallId, i: nat :: Owns(s', d, i) <==> Owns(s, d, i))
    && (forall d: CallId, i: nat :: Assigned(s', d, i) <==> Assigned(s, d, i))
    && (forall d :: Published(s', d) <==> Published(s, d))
  }

  lemma SameViewKeeps(s: State, s': State)
    requires Ownership(s) && Custody(s) && NoLoss(s) && Progress(s) && SameView(s, s')
    ensures Ownership(s') && Custody(s') && NoLoss(s') && Progress(s')
  {
  }

  /** A call that owns nothing and has published nothing. */
  predicate Searching(pc: QueuePc) {
    pc.Scan? || pc.Claim? || pc.Full?
  }

  lemma SearchView(s: State, s': State, c: CallId)
    requires c in s'.calls && s' == s.(calls := s.calls[c := s'.calls[c]])
    requires (c in s.calls ==> Searching(s.calls[c])) && Searching(s'.calls[c])
    ensures SameView(s, s') && InFlight(s') == InFlight(s)
  {
  }

  lemma SearchKeepsInv(s: State, c: CallId, pc: QueuePc)
    requires Inv(s) && (c in s.calls ==> Searching(s.calls[c])) && Searching(pc)
    requires pc.Claim? ==> pc.i < |s.slots|
    ensures Inv(At(s, c, pc))
  {
    var s' := At(s, c, pc);
    SearchView(s, s', c);
    SameViewKeeps(s, s');
    assert InRange(s') && Counting(s');
  }

  lemma IncrementKeepsInv(s: State, c: CallId)
    requires Inv(s) && c in s.calls && s.calls[c].Increment?
    ensures Inv(QueueStep(s, c))
  {
    var s' := QueueStep(s, c);
    InFlightSame(s, s', c);
    assert c in InFlight(s);
    SameViewKeeps(s, s');
  }

  lemma ClaimKeepsInv(s: State, c: CallId)
    requires Inv(s) && c in s.calls && s.calls[c].Claim?
    ensures Inv(QueueStep(s, c))
  {
    var s' := QueueStep(s, c);
    var i := s.calls[c].i;
    InFlightSame(s, s', c);
    assert InFlight(s') == InFlight(s);
    ReadySlotsUpdate(s.slots, i, s'.slots[i]);
    if s.slots[i].state != ZERO {
      assert s'.slots == s.slots;
      SearchKeepsInv(s, c, Scan(i + 1));
    } else {
      ClaimedSlot(s, s', c, i);
    }
  }

  /** Slots other than `i`, and which functions wait, are as they were. */
  ghost predicate SameWaiting(a: seq<Slot>, b: seq<Slot>) {
    |a| == |b| && forall j: nat :: j < |a| ==> Pending(a, j) == Pending(b, j)
  }

  lemma SameWaitingSame(a: seq<Slot>, b: seq<Slot>, c: CallId, from: nat)
    requires SameWaiting(a, b)
    ensures Waiting(a, c, from) <==> Waiting(b, c, from)
  {
    if Waiting(a, c, from) {
      var i: nat :| from <= i < |a| && Pending(a, i) == Some(c);
      assert Pending(b, i) == Some(c);
    }
    if Waiting(b, c, from) {
      var i: nat :| from <= i < |b| && Pending(b, i) == Some(c);
      assert Pending(a, i) == Some(c);
    }
  }

  lemma ClaimedSlot(s: State, s': State, c: CallId, i: nat)
    requires Inv(s) && c in s.calls && s.calls[c] == Claim(i) && s.slots[i].state == ZERO && s' == QueueStep(s, c)
    ensures Ownership(s') && Custody(s') && NoLoss(s') && Progress(s')
  {
    assert s'.slots[i].state == ONE && Owns(s', c, i);
    assert forall d: CallId, j: nat :: Owns(s', d, j) <==> Owns(s, d, j) || (d == c && i == j);
    assert forall d: CallId, j: nat :: Assigned(s', d, j) <==> Assigned(s, d, j);
    assert forall d :: Published(s', d) <==> Published(s, d);
    assert SameWaiting(s.slots, s'.slots);
    assert InHand(s'.slots, s'.poller) == InHand(s.slots, s.poller);
    forall d: CallId, k: nat ensures Waiting(s.slots, d, k) <==> Waiting(s'.slots, d, k) {
      SameWaitingSame(s.slots, s'.slots, d, k);
    }
  }

  lemma AssignKeepsInv(s: State, c: CallId)
    requires Inv(s) && c in s.calls && s.calls[c].Assign?
    ensures Inv(QueueStep(s, c))
  {
    var s' := QueueStep(s, c);
    var i := s.calls[c].i;
    assert Owns(s, c, i) && Owns(s', c, i);
    ReadySlotsUpdate(s.slots, i, s'.slots[i]);
    assert InFlight(s') == InFlight(s);
    assert forall d: CallId, j: nat :: Owns(s', d, j) <==> Owns(s, d, j);
    assert forall d: CallId, j: nat :: Assigned(s', d, j) <==> Assigned(s, d, j) || (d == c && j == i);
    assert forall d: CallId, j: nat :: Assigned(s, d, j) ==> Owns(s, d, j);
    assert forall d :: Published(s', d) <==> Published(s, d);
    WaitingKept(s.slots, s'.slots);
    assert InHand(s'.slots, s'.poller) == InHand(s.slots, s.poller);
    assert Ownership(s') && InRange(s') && Counting(s');
  }

  lemma WaitingKept(a: seq<Slot>, b: seq<Slot>)
    requires SameWaiting(a, b)
    ensures forall c: CallId, from: nat :: Waiting(a, c, from) <==> Waiting(b, c, from)
  {
    forall c: CallId, from: nat ensures Waiting(a, c, from) <==> Waiting(b, c, from) {
      SameWaitingSame(a, b, c, from);
    }
  }

  /** Slot `i` now holds the waiting function of `c` and held none before. */
  lemma WaitingGained(a: seq<Slot>, b: seq<Slot>, i: nat, c: CallId)
    requires i < |a| == |b| && Pending(a, i) == None && Pending(b, i) == Some(c)
    requires forall j: nat :: j < |a| && j != i ==> Pending(b, j) == Pending(a, j)
    ensures forall d: CallId, from: nat :: Waiting(b, d, from) <==> Waiting(a, d, from) || (d == c && from <= i)
  {
    forall d: CallId, from: nat ensures Waiting(b, d, from) <==> Waiting(a, d, from) || (d == c && from <= i) {
      if Waiting(a, d, from) {
        var j: nat :| from <= j < |a| && Pending(a, j) == Some(d);
        assert Pending(b, j) == Some(d);
      }
      if Waiting(b, d, from) {
        var j: nat :| from <= j < |b| && Pending(b, j) == Some(d);
        assert j != i ==> Pending(a, j) == Some(d);
      }
      assert d == c && from <= i ==> Pending(b, i) == Some(d);
    }
  }

  lemma PublishKeepsInv(s: State, c: CallId)
    requires Inv(s) && c in s.calls && s.calls[c].Publish?
    ensures Inv(QueueStep(s, c))
  {
    var s' := QueueStep(s, c);
    var i := s.calls[c].i;
    assert Owns(s, c, i) && Assigned(s, c, i);
    ReadySlotsUpdate(s.slots, i, s'.slots[i]);
    InFlightSame(s, s', c);
    assert c !in InFlight(s);
    assert forall d: CallId, j: nat :: Owns(s', d, j) <==> Owns(s, d, j) && d != c;
    assert forall d: CallId, j: nat :: Assigned(s', d, j) <==> Assigned(s, d, j) && d != c;
    assert forall d :: Published(s', d) <==> Published(s, d) || d == c;
    assert !Published(s, c);
    WaitingGained(s.slots, s'.slots, i, c);
    assert InHand(s'.slots, s'.poller) == InHand(s.slots, s.poller);
    PublishOwnership(s, s', c, i);
    assert InRange(s') && Counting(s');
    assert Custody(s') && NoLoss(s') && Progress(s');
  }

  lemma PublishOwnership(s: State, s': State, c: CallId, i: nat)
    requires Ownership(s) && c in s.calls && s.calls[c] == Publish(i) && s' == QueueStep(s, c)
    ensures Ownership(s')
  {
    assert Owns(s, c, i);
    assert forall d: CallId, j: nat :: Owns(s', d, j) <==> Owns(s, d, j) && d != c;
    forall j: nat | j < |s'.slots| && s'.slots[j].state == ONE ensures exists d :: Owns(s', d, j) {
      var d :| Owns(s, d, j);
      assert Owns(s', d, j);
    }
  }

  lemma QueueStepKeepsInv(s: State, c: CallId)
    requires Inv(s) && c in s.calls
    ensures Inv(QueueStep(s, c))
  {
    match s.calls[c] {
      case Scan(i) =>
        SearchKeepsInv(s, c, QueueStep(s, c).calls[c]);
      case Claim(_) => ClaimKeepsInv(s, c);
      case Assign(_) => AssignKeepsInv(s, c);
      case Publish(_) => PublishKeepsInv(s, c);
      case Increment => IncrementKeepsInv(s, c);
      case Done =>
      case Full =>
    }
  }

  lemma PollIdleKeepsInv(s: State)
    requires Inv(s) && s.poller.Idle?
    ensures Inv(PollStep(s))
  {
    var s' := PollStep(s);
    assert InFlight(s') == InFlight(s);
    forall c | c in s'.atStart ensures Waiting(s'.slots, c, 0) {
      var i: nat :| i < |s.slots| && Pending(s.slots, i) == Some(c);
    }
    PollerMoves(s, s');
  }

  /** The poller moves without touching a slot, the count or a function. */
  lemma PollerMoves(s: State, s': State)
    requires Ownership(s) && Custody(s) && NoLoss(s)
    requires s'.slots == s.slots && s'.calls == s.calls && s'.ran == s.ran
    requires InHand(s'.slots, s'.poller) == InHand(s.slots, s.poller) && Holding(s'.poller) == Holding(s.poller)
    requires forall i: nat :: PollerLocks(s'.poller, i) <==> PollerLocks(s.poller, i)
    ensures Ownership(s') && Custody(s') && NoLoss(s') && InFlight(s') == InFlight(s)
  {
    assert forall d: CallId, j: nat :: Owns(s', d, j) <==> Owns(s, d, j);
    assert forall d: CallId, j: nat :: Assigned(s', d, j) <==> Assigned(s, d, j);
    assert forall d :: Published(s', d) <==> Published(s, d);
  }

  lemma PollMoveKeepsInv(s: State)
    requires Inv(s) && (s.poller.Check? || s.poller.Load? || s.poller.Copy? || s.poller.Decrement?)
    ensures Inv(PollStep(s))
  {
    var s' := PollStep(s);
    assert s.poller.Load? ==> !PollerLocks(s.poller, s.poller.i);
    PollerMoves(s, s');
    if s.poller.Load? && s'.poller.Check? {
      WaitsBeyond(s.slots, s.poller.i);
    }
  }

  /** A slot that is not in state 3 holds no waiting function. */
  lemma WaitsBeyond(slots: seq<Slot>, i: nat)
    requires i < |slots| && slots[i].state != THREE
    ensures forall c: CallId :: Waiting(slots, c, i) ==> Waiting(slots, c, i + 1)
  {
    forall c: CallId | Waiting(slots, c, i) ensures Waiting(slots, c, i + 1) {
      var j: nat :| i <= j < |slots| && Pending(slots, j) == Some(c);
    }
  }

  lemma PollLockKeepsInv(s: State)
    requires Inv(s) && s.poller.Lock?
    ensures Inv(PollStep(s))
  {
    var s' := PollStep(s);
    var i := s.poller.i;
    assert InFlight(s') == InFlight(s);
    ReadySlotsUpdate(s.slots, i, s'.slots[i]);
    SameCalls(s, s');
    WaitingGained(s'.slots, s.slots, i, Pending(s.slots, i).value);
    assert Ownership(s') && InRange(s') && Counting(s');
    LockCustody(s, s', i);
  }

  lemma SameCalls(s: State, s': State)
    requires s'.calls == s.calls
    ensures forall d: CallId, j: nat :: Owns(s', d, j) <==> Owns(s, d, j)
    ensures forall d: CallId, j: nat :: Assigned(s', d, j) <==> Assigned(s, d, j)
    ensures forall d :: Published(s', d) <==> Published(s, d)
  {
  }

  lemma LockCustody(s: State, s': State, i: nat)
    requires Inv(s) && s.poller == Lock(i) && s' == PollStep(s)
    ensures Custody(s') && NoLoss(s') && Progress(s')
  {
    SameCalls(s, s');
    var c := Pending(s.slots, i).value;
    WaitingGained(s'.slots, s.slots, i, c);
    assert InHand(s'.slots, s'.poller) == Some(c);
    assert forall j: nat :: j < |s.slots| && j != i ==> Pending(s.slots, j) != Some(c);
    assert forall j: nat :: j < |s.slots| ==> Pending(s'.slots, j) != Some(c);
  }

  lemma PollClearKeepsInv(s: State)
    requires Inv(s) && s.poller.Clear?
    ensures Inv(PollStep(s))
  {
    var s' := PollStep(s);
    var i := s.poller.i;
    assert PollerLocks(s.poller, i);
    assert InFlight(s') == InFlight(s);
    ReadySlotsUpdate(s.slots, i, s'.slots[i]);
    SameCalls(s, s');
    WaitingKept(s.slots, s'.slots);
    assert Ownership(s') && InRange(s') && Counting(s');
    assert forall d: CallId, j: nat :: Assigned(s, d, j) ==> Owns(s, d, j);
  }

  lemma PollReleaseKeepsInv(s: State)
    requires Inv(s) && s.poller.Release?
    ensures Inv(PollStep(s))
  {
    var s' := PollStep(s);
    var i := s.poller.i;
    assert PollerLocks(s.poller, i);
    assert InFlight(s') == InFlight(s);
    ReadySlotsUpdate(s.slots, i, s'.slots[i]);
    SameCalls(s, s');
    WaitingKept(s.slots, s'.slots);
    assert Ownership(s') && InRange(s') && Counting(s');
  }

  lemma PollRunKeepsInv(s: State)
    requires Inv(s) && s.poller.Run?
    ensures Inv(PollStep(s))
  {
    var s' := PollStep(s);
    assert InFlight(s') == InFlight(s);
    SameCalls(s, s');
    assert Ownership(s') && InRange(s') && Counting(s');
    var c := InHand(s.slots, s.poller).value;
    assert forall j: nat :: j < |s.slots| ==> Pending(s.slots, j) != Some(c) by {
      assert !Waiting(s.slots, c, 0);
    }
    assert forall d :: d in s'.ran <==> d in s.ran || d == c;
  }

  lemma NextKeepsInv(s: State, step: Step)
    requires Inv(s)
    ensures Inv(Next(s, step))
  {
    match step {
      case Begin(c) => if c !in s.calls { SearchKeepsInv(s, c, Scan(0)); }
      case Queue(c) => if c in s.calls { QueueStepKeepsInv(s, c); }
      case Poll =>
        match s.poller {
          case Idle => PollIdleKeepsInv(s);
          case Lock(_) => PollLockKeepsInv(s);
          case Clear(_, _) => PollClearKeepsInv(s);
          case Release(_, _) => PollReleaseKeepsInv(s);
          case Run(_, _) => PollRunKeepsInv(s);
          case _ => PollMoveKeepsInv(s);
        }
    }
  }

  // ----- what follows for every interleaving

  /** Every reachable state satisfies the invariant. */
  lemma {:induction false} ExecKeepsInv(s: State, steps: seq<Step>)
    requires Inv(s)
    ensures Inv(Exec(s, steps))
    decreases |steps|
  {
    if steps != [] {
      NextKeepsInv(s, steps[0]);
      ExecKeepsInv(Next(s, steps[0]), steps[1..]);
    }
  }

  lemma ReachableInv(size: nat, steps: seq<Step>)
    ensures Inv(Exec(Init(size), steps))
  {
    InitInv(size);
    ExecKeepsInv(Init(size), steps);
  }

  /** No assertion on a slot's state ever fails, and a slot's function is written only by the one call that claimed
      the slot (state 1) or by the poller that locked it (state 7). */
  lemma SafeAndExclusive(size: nat, steps: seq<Step>, step: Step, i: nat)
    requires i < size
    ensures
      var s := Exec(Init(size), steps);
      var s' := Next(s, step);
      && s.ok && |s.slots| == |s'.slots| == size
      && (s'.slots[i].function_ != s.slots[i].function_ ==>
            || (step.Queue? && s.slots[i].state == ONE && Owns(s, step.c, i) && forall d :: Owns(s, d, i) ==> d == step.c)
            || (step.Poll? && s.slots[i].state == SEVEN && PollerLocks(s.poller, i)))
  {
    var s := Exec(Init(size), steps);
    ReachableInv(size, steps);
    ExecKeepsSize(Init(size), steps);
    if step.Queue? && step.c in s.calls && s.calls[step.c].Assign? {
      assert Owns(s, step.c, s.calls[step.c].i);
    }
    if s.poller.Clear? {
      assert PollerLocks(s.poller, s.poller.i);
    }
  }

  lemma {:induction false} ExecKeepsSize(s: State, steps: seq<Step>)
    ensures |Exec(s, steps).slots| == |s.slots|
    decreases |steps|
  {
    if steps != [] {
      ExecKeepsSize(Next(s, steps[0]), steps[1..]);
    }
  }

  /** A published function has run once, or is about to run from the poller's hand, or waits in one slot: never two of
      these, never none.  What was not published has not run. */
  lemma ExactlyOnce(size: nat, steps: seq<Step>, c: CallId)
    ensures
      var s := Exec(Init(size), steps);
      var inHand := InHand(s.slots, s.poller) == Some(c);
      var waiting := Waiting(s.slots, c, 0);
      && multiset(s.ran)[c] == (if Published(s, c) && !inHand && !waiting then 1 else 0)
      && (inHand || waiting ==> Published(s, c))
      && !(inHand && waiting)
      && (forall i: nat, j: nat :: i < j < |s.slots| && Pending(s.slots, i) == Some(c) ==> Pending(s.slots, j) != Some(c))
  {
    ReachableInv(size, steps);
    var s := Exec(Init(size), steps);
    DistinctCounts(s.ran, c);
    if Waiting(s.slots, c, 0) {
      var i: nat :| i < |s.slots| && Pending(s.slots, i) == Some(c);
      assert s.slots[i].state == THREE;
    }
    if InHand(s.slots, s.poller) == Some(c) {
      assert Holding(s.poller);
    }
  }

  lemma {:induction false} DistinctCounts(q: seq<CallId>, c: CallId)
    requires forall j, k :: 0 <= j < k < |q| ==> q[j] != q[k]
    ensures multiset(q)[c] == if c in q then 1 else 0
  {
    if q != [] {
      DistinctCounts(q[1..], c);
      assert q == [q[0]] + q[1..];
    }
  }

  /** The count is never negative, and when Poll finds it zero the ready slots left behind are as many as the Queue
      calls caught between publishing and counting: none are skipped if and only if no call is there. */
  lemma EarlyExit(size: nat, steps: seq<Step>)
    ensures
      var s := Exec(Init(size), steps);
      && s.count >= 0
      && (s.poller.Check? && s.count == 0 ==>
            && ReadySlots(s.slots) == |InFlight(s)|
            && (InFlight(s) == {} <==> forall i :: 0 <= i < |s.slots| ==> !s.slots[i].state.ready))
  {
    ReachableInv(size, steps);
    NoReadySlots(Exec(Init(size), steps).slots);
  }

  lemma {:induction false} ExecSnoc(s: State, steps: seq<Step>, step: Step)
    ensures Exec(s, steps + [step]) == Next(Exec(s, steps), step)
    decreases |steps|
  {
    if steps == [] {
      assert Exec(Next(s, step), []) == Next(s, step);
    } else {
      ExecSnoc(Next(s, steps[0]), steps[1..], step);
      assert (steps + [step])[1..] == steps[1..] + [step];
    }
  }

  ghost predicate Reachable(s: State) {
    exists steps :: Exec(Init(2), steps) == s
  }

  lemma Extend(s: State, step: Step) returns (s': State)
    requires Reachable(s)
    ensures s' == Next(s, step) && Reachable(s')
  {
    var steps :| Exec(Init(2), steps) == s;
    ExecSnoc(Init(2), steps, step);
    s' := Next(s, step);
  }

  /** Call 0 has published in slot 0 and not yet counted. */
  lemma OneCaught() returns (s: State)
    ensures Reachable(s)
    ensures s == State([Slot(THREE, Some(0)), Slot(ZERO, None)], 0, map[0 := Increment], Idle, true, [], {})
  {
    assert Exec(Init(2), []) == Init(2);
    s := Extend(Init(2), Begin(0));
    s := Extend(s, Queue(0));
    s := Extend(s, Queue(0));
    s := Extend(s, Queue(0));
    s := Extend(s, Queue(0));
    assert s.slots == [Slot(THREE, Some(0)), Slot(ZERO, None)] && s.calls == map[0 := Increment];
  }

  /** The state while call 1 works on slot 1. */
  function Caught(one: Slot, count: int, pc: QueuePc): State {
    State([Slot(THREE, Some(0)), one], count, map[0 := Increment, 1 := pc], Idle, true, [], {})
  }

  lemma CaughtMoves(s: State, one: Slot, count: int, pc: QueuePc)
    requires s == Caught(one, count, pc) && pc != Full
    requires pc == Scan(0) || pc == Scan(1) || pc == Claim(1) || pc == Assign(1) || pc == Publish(1) || pc == Increment
    ensures Next(s, Queue(1)) ==
            match pc
            case Scan(i) => Caught(one, count, if i == 0 then Scan(1) else if one.state == ZERO then Claim(1) else Scan(2))
            case Claim(_) => Caught(one.(state := Or(one.state, BIT1)), count, if one.state == ZERO then Assign(1) else Scan(2))
            case Assign(_) => Caught(one.(function_ := Some(1)), count, Publish(1))
            case Publish(_) => Caught(one.(state := Or(one.state, BIT2)), count, Increment).(ok := one.state == ONE)
            case _ => Caught(one, count + 1, Done)
  {
    var s' := Next(s, Queue(1));
    assert s'.calls == map[0 := Increment, 1 := s'.calls[1]];
  }

  /** Call 1 has then finished, in slot 1. */
  lemma OneCaughtOneDone() returns (s: State)
    ensures Reachable(s) && s == Caught(Slot(THREE, Some(1)), 1, Done)
  {
    s := OneCaught();
    s := Extend(s, Begin(1));
    var one := Slot(ZERO, None);
    assert s.calls == map[0 := Increment, 1 := Scan(0)];
    CaughtMoves(s, one, 0, Scan(0));
    s := Extend(s, Queue(1));
    CaughtMoves(s, one, 0, Scan(1));
    s := Extend(s, Queue(1));
    CaughtMoves(s, one, 0, Claim(1));
    s := Extend(s, Queue(1));
    CaughtMoves(s, Slot(ONE, None), 0, Assign(1));
    s := Extend(s, Queue(1));
    CaughtMoves(s, Slot(ONE, Some(1)), 0, Publish(1));
    s := Extend(s, Queue(1));
    CaughtMoves(s, Slot(THREE, Some(1)), 0, Increment);
    s := Extend(s, Queue(1));
  }

  /** The window is real: from there a Poll spends the one count on slot 0 and returns with the event of call 1, which
      was ready when it began, still waiting. */
  lemma AnEventCanWaitForTheNextPoll()
    ensures exists s :: Reachable(s) && s.poller.Idle? && s.ran == [0] && 1 in s.atStart && Published(s, 1)
  {
    var s := OneCaughtOneDone();
    s := Extend(s, Poll);
    assert Pending(s.slots, 0) == Some(0) && Pending(s.slots, 1) == Some(1);
    assert 1 in s.atStart;
    s := PollOneSlot(s);
    s := Extend(s, Poll);
  }

  lemma LockOneSlot(s: State) returns (t: State)
    requires Reachable(s) && s.poller == Check(0) && s.slots != [] && s.slots[0] == Slot(THREE, Some(0)) && s.count == 1
    ensures Reachable(t) && t.poller == Copy(0) && t.slots != [] && t.slots[0] == Slot(SEVEN, Some(0))
    ensures t == s.(slots := t.slots, poller := t.poller)
  {
    t := Extend(s, Poll);
    t := Extend(t, Poll);
    t := Extend(t, Poll);
  }

  lemma EmptyOneSlot(s: State) returns (t: State)
    requires Reachable(s) && s.poller == Copy(0) && s.slots != [] && s.slots[0] == Slot(SEVEN, Some(0))
    ensures Reachable(t) && t.poller == Run(0, Some(0))
    ensures t == s.(slots := t.slots, poller := t.poller)
  {
    t := Extend(s, Poll);
    t := Extend(t, Poll);
    t := Extend(t, Poll);
  }

  lemma PollOneSlot(s: State) returns (t: State)
    requires Reachable(s) && s.poller == Check(0) && s.slots != [] && s.slots[0] == Slot(THREE, Some(0)) && s.count == 1
    ensures Reachable(t) && t.poller == Check(1) && t.count == 0 && t.ran == s.ran + [0]
    ensures t.calls == s.calls && t.atStart == s.atStart
  {
    t := LockOneSlot(s);
    t := EmptyOneSlot(t);
    t := Extend(t, Poll);
    t := Extend(t, Poll);
  }

  /** When a Poll returns with no call in that window, everything that was ready when it began has run. */
  lemma PollRunsAll(s: State)
    requires Inv(s) && s.poller.Check? && PollStep(s).poller.Idle? && InFlight(s) == {}
    ensures s.atStart <= set c | c in s.ran
  {
    NoReadySlots(s.slots);
    forall c | c in s.atStart ensures c in s.ran {
      assert !Waiting(s.slots, c, s.poller.i);
    }
  }

  /** A bound on the operations left in the current Poll; no interleaved call can raise it. */
  function PollRank(slots: nat, poller: PollPc): nat {
    var left := if Position(poller) <= slots then slots - Position(poller) else 0;
    match poller
    case Idle => 0
    case Check(_) => 9 * left + 1
    case Load(_) => 9 * left
    case Lock(_) => 9 * left - (if left > 0 then 1 else 0)
    case Copy(_) => 9 * left + 7
    case Clear(_, _) => 9 * left + 6
    case Release(_, _) => 9 * left + 5
    case Run(_, _) => 9 * left + 4
    case Decrement(_) => 9 * left + 3
  }

  /** Likewise for one Queue call. */
  function QueueRank(slots: nat, pc: QueuePc): nat {
    match pc
    case Scan(i) => if i <= slots then 2 * (slots - i) + 5 else 1
    case Claim(i) => if i <= slots then 2 * (slots - i) + 4 else 0
    case Assign(_) => 3
    case Publish(_) => 2
    case Increment => 1
    case Done => 0
    case Full => 0
  }

  /** Wait-free: whatever the others do, each operation of a Poll or of a Queue call brings its own end nearer. */
  lemma StepsAreBounded(s: State, c: CallId)
    requires Inv(s)
    ensures !s.poller.Idle? ==> PollRank(|s.slots|, PollStep(s).poller) < PollRank(|s.slots|, s.poller)
    ensures c in s.calls && !s.calls[c].Done? && !s.calls[c].Full? ==>
              QueueRank(|s.slots|, QueueStep(s, c).calls[c]) < QueueRank(|s.slots|, s.calls[c])
  {
    if c in s.calls && (s.calls[c].Assign? || s.calls[c].Publish?) {
      assert Owns(s, c, s.calls[c].i);
    }
  }

  /** The poller alone, until it returns. */
  ghost function FinishPoll(s: State): (t: State)
    requires Inv(s)
    ensures Inv(t) && t.poller.Idle?
    decreases PollRank(|s.slots|, s.poller)
  {
    if s.poller.Idle? then s
    else
      StepsAreBounded(s, 0);
      NextKeepsInv(s, Poll);
      FinishPoll(PollStep(s))
  }

  /** Once every Queue call has finished, one Poll leaves nothing unrun. */
  lemma PollDrains(s: State)
    requires Inv(s) && s.poller.Idle? && InFlight(s) == {}
    ensures
      var t := FinishPoll(PollStepKept(s));
      forall c :: Published(s, c) ==> multiset(t.ran)[c] == 1
  {
    var t := FinishPoll(PollStepKept(s));
    forall c | Published(s, c) && c !in s.ran ensures c in PollStep(s).atStart {
      var i: nat :| i < |s.slots| && Pending(s.slots, i) == Some(c);
    }
    DrainFrom(PollStepKept(s));
    forall c | Published(s, c) ensures multiset(t.ran)[c] == 1 {
      DistinctCounts(t.ran, c);
    }
  }

  ghost function PollStepKept(s: State): (t: State)
    requires Inv(s)
    ensures Inv(t) && t == PollStep(s)
  {
    NextKeepsInv(s, Poll);
    PollStep(s)
  }

  lemma {:induction false} DrainFrom(s: State)
    requires Inv(s) && !s.poller.Idle? && InFlight(s) == {}
    ensures var t := FinishPoll(s); s.atStart <= (set c | c in t.ran) && forall c :: c in s.ran ==> c in t.ran
    decreases PollRank(|s.slots|, s.poller)
  {
    StepsAreBounded(s, 0);
    NextKeepsInv(s, Poll);
    var s' := PollStep(s);
    if s'.poller.Idle? {
      PollRunsAll(s);
    } else {
      assert InFlight(s') == InFlight(s);
      DrainFrom(s');
    }
  }

  // ----- the queue itself, one atomic operation a call

  /** The queue with the program counter of each thread using it.  Each method below is one atomic operation; the
      assertions in them are the ones the queue makes on the values it gets back. */
  class AtomicEventQueue {
    const entries: array<Slot>
    var count: int
    var calls: map<CallId, QueuePc>
    var poller: PollPc
    ghost var ran: seq<CallId>
    ghost var atStart: set<CallId>

    ghost function View(): State
      reads this, entries
    {
      State(entries[..], count, calls, poller, true, ran, atStart)
    }

    constructor (size: nat)
      ensures View() == Init(size) && Inv(View()) && fresh(entries)
    {
      entries := new Slot[size](_ => Slot(ZERO, None));
      count, calls, poller := 0, map[], Idle;
      ran, atStart := [], {};
      new;
      assert entries[..] == Init(size).slots;
      InitInv(size);
    }

    method FetchOr(i: nat, bits: Bits) returns (was: Bits)
      requires i < entries.Length
      modifies entries
      ensures was == old(entries[i].state)
      ensures entries[..] == old(entries[..])[i := Slot(Or(was, bits), old(entries[i].function_))]
    {
      was := entries[i].state;
      entries[i] := entries[i].(state := Or(was, bits));
    }

    method BeginQueue(c: CallId)
      requires Inv(View()) && c !in calls
      modifies this`calls
      ensures Inv(View()) && View() == Next(old(View()), Begin(c))
    {
      NextKeepsInv(View(), Begin(c));
      calls := calls[c := Scan(0)];
    }

    method Queue(c: CallId)
      requires Inv(View()) && c in calls
      modifies this`calls, this`count, entries
      ensures Inv(View()) && View() == Next(old(View()), Step.Queue(c))
    {
      NextKeepsInv(View(), Step.Queue(c));
      match calls[c] {
        case Scan(i) =>
          if i >= entries.Length {
            calls := calls[c := Full];
          } else {
            var current := entries[i].state;
            calls := calls[c := if current == ZERO then Claim(i) else Scan(i + 1)];
          }
        case Claim(i) =>
          var was := FetchOr(i, BIT1);
          calls := calls[c := if was != ZERO then Scan(i + 1) else Assign(i)];
        case Assign(i) =>
          assert Owns(View(), c, i);
          entries[i] := entries[i].(function_ := Some(c));
          calls := calls[c := Publish(i)];
        case Publish(i) =>
          assert Owns(View(), c, i);
          var shouldBe1 := FetchOr(i, BIT2);
          assert shouldBe1 == ONE;
          calls := calls[c := Increment];
        case Increment =>
          count := count + 1;
          calls := calls[c := Done];
        case Done =>
        case Full =>
      }
    }

    method Poll()
      requires Inv(View())
      modifies this`poller, this`count, this`ran, this`atStart, entries
      ensures Inv(View()) && View() == Next(old(View()), Step.Poll)
    {
      NextKeepsInv(View(), Step.Poll);
      match poller {
        case Idle =>
          atStart := ReadyCalls(View());
          poller := Check(0);
        case Check(i) =>
          poller := if i >= entries.Length || count == 0 then Idle else Load(i);
        case Load(i) =>
          var current := entries[i].state;
          if current == THREE {
            poller := Lock(i);
          } else {
            assert current != SEVEN;
            poller := Check(i + 1);
          }
        case _ => PollSlot();
      }
    }

    /** The steps on a slot that was found ready. */
    method PollSlot()
      requires Inv(View()) && !poller.Idle? && !poller.Check? && !poller.Load?
      modifies this`poller, this`count, this`ran, entries
      ensures View() == Next(old(View()), Step.Poll)
    {
      match poller {
        case Lock(i) =>
          var shouldBeThree := FetchOr(i, BIT4);
          assert shouldBeThree == THREE;
          poller := Copy(i);
        case Copy(i) =>
          poller := Clear(i, entries[i].function_);
        case Clear(i, copy) =>
          entries[i] := entries[i].(function_ := None);
          poller := Release(i, copy);
        case Release(i, copy) =>
          var shouldBe7 := entries[i].state;
          entries[i] := entries[i].(state := ZERO);
          assert PollerLocks(old(poller), i);
          assert shouldBe7 == SEVEN;
          poller := Run(i, copy);
        case Run(i, copy) =>
          assert copy.Some?;
          ran := ran + [copy.value];
          poller := Decrement(i);
        case Decrement(i) =>
          count := count - 1;
          poller := Check(i + 1);
      }
    }
  }
}
