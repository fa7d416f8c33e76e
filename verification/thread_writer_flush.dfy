/** What Flush and the timer are for: everything written before them is passed on. */
module ThreadWriterFlush {
  import opened Bytes
  import opened ThreadWriter

  /** A flush was asked for, or the timer fired; neither is ever taken back. */
  predicate Asked(s: State) {
    s.flush || s.timerFired
  }

  /** Wake-ups to come: in the pipe, or about to be written to it. */
  function Wakeups(s: State): nat {
    s.pipe + (if s.parent == Signalling then 1 else 0) + s.timers
  }

  /** The first `n` bytes written are passed on already, or will be: enough wake-ups are to come, the last of them
      behind the writing of those bytes. */
  ghost predicate WillFlush(s: State, n: nat) {
    && Inv(s) && !s.done && Asked(s) && s.capacity >= 2 && n <= |s.accepted|
    && (s.flushed >= n
        || Wakeups(s) >= 2
        || (Wakeups(s) == 1 && (|s.file| >= n || Busy(s.child)))
        || (|s.file| >= n && (s.child == Woken || (s.child == Checked && s.timerFired))))
  }

  /** A step that is no new call and not the timer firing again. */
  predicate GoesOn(e: Step) {
    !e.Push? && !e.SetFlush? && !e.Destroy? && !e.Fire?
  }

  lemma AllWritten(s: State)
    requires Inv(s) && s.queue == [] && !s.child.Holding?
    ensures |s.file| == |s.accepted|
  {
  }

  lemma NotAllWritten(s: State)
    requires Inv(s) && |s.file| < |s.accepted| && !s.done
    ensures s.pipe > 0 || s.parent == Signalling || Busy(s.child)
  {
    if s.queue == [] {
      assert s.child.Holding?;
    }
  }

  /** Asking makes it so, for all that was written before. */
  lemma FlushTakesHold(s: State, e: Step)
    requires Inv(s) && !s.done && s.capacity >= 2 && (e == SetFlush || e == Fire) && Enabled(s, e)
    ensures WillFlush(Apply(s, e), |s.accepted|)
  {
    StepKeepsInv(s, e);
    if |s.file| < |s.accepted| {
      NotAllWritten(s);
    }
  }

  /** Whatever any thread does next, new calls included, it stays so, unless the writer is destroyed. */
  lemma WillFlushStays(s: State, e: Step, n: nat)
    requires WillFlush(s, n) && Enabled(s, e) && e != Destroy
    ensures WillFlush(Apply(s, e), n)
  {
    StepKeepsInv(s, e);
    if e == Test && s.queue == [] {
      AllWritten(s);
    }
  }

  /** Until then there is a step to take. */
  lemma WillFlushProceeds(s: State, n: nat) returns (e: Step)
    requires WillFlush(s, n) && s.flushed < n
    ensures Enabled(s, e) && GoesOn(e) && e != Interrupt
  {
    match s.child
    case Reading => e := if s.pipe > 0 then ReadByte else if s.parent == Signalling then Signal else TimerSignal;
    case Woken => e := Command;
    case Checked => e := Timer;
    case Working(_) => e := Test;
    case Taking(_) => e := Take;
    case Holding(_, _) => e := Put;
    case Advising(_) => e := Advise;
  }

  /** How many such steps are left at most. */
  function StepsToFlush(s: State, n: nat): nat {
    var q := 4 * |s.queue|;
    s.timers + (if s.parent == Signalling then 1 else 0) +
    (match s.child
     case Reading => if |s.file| >= n then 3 else 7 + q
     case Woken => if |s.file| >= n then 2 else 6 + q
     case Checked => if |s.file| >= n && s.timerFired then 1 else 5 + q
     case Working(_) => 4 + q
     case Taking(_) => 3 + q
     case Holding(_, _) => 6 + q
     case Advising(_) => 5 + q
     case _ => 0)
  }

  /** And each of them, whoever takes it, brings the flush nearer. */
  lemma WillFlushEnds(s: State, e: Step, n: nat)
    requires WillFlush(s, n) && s.flushed < n && Enabled(s, e) && GoesOn(e)
    ensures Apply(s, e).flushed >= n || StepsToFlush(Apply(s, e), n) < StepsToFlush(s, n)
  {
    if e == Test && s.queue == [] {
      AllWritten(s);
    }
  }

  ghost predicate AllGoOn(s: State, steps: seq<Step>)
    requires s.blockSize > 0
    decreases |steps|
  {
    steps != [] ==> Enabled(s, steps[0]) && GoesOn(steps[0]) && AllGoOn(Apply(s, steps[0]), steps[1..])
  }

  lemma FlushedStays(s: State, e: Step)
    requires Inv(s) && Enabled(s, e)
    ensures Apply(s, e).flushed >= s.flushed
  {
  }

  /** So after Flush, or when the timer has fired, all that was written before is passed on once the threads have gone
      on for long enough, in any order, with no new call. */
  lemma {:induction false} FlushedInTheEnd(s: State, steps: seq<Step>, n: nat)
    requires WillFlush(s, n) && AllGoOn(s, steps)
    ensures WillFlush(Run(s, steps), n)
    ensures |steps| >= StepsToFlush(s, n) || s.flushed >= n ==> Run(s, steps).flushed >= n
    decreases |steps|
  {
    if steps != [] {
      var t := Apply(s, steps[0]);
      WillFlushStays(s, steps[0], n);
      FlushedStays(s, steps[0]);
      if s.flushed < n {
        WillFlushEnds(s, steps[0], n);
      }
      FlushedInTheEnd(t, steps[1..], n);
    } else if s.flushed < n {
      NotDoneYet(s, n);
    }
  }

  lemma NotDoneYet(s: State, n: nat)
    requires WillFlush(s, n) && s.flushed < n
    ensures StepsToFlush(s, n) > 0
  {
  }

  /** A pipe of one byte would not do: the flush's wake-up is dropped, the write's is used up before the bytes are
      written, and then nothing is left to do. */
  lemma OneByteIsTooFew(b: byte) returns (steps: seq<Step>)
    ensures |steps| == 12 && steps[..4] == [Push([b]), Signal, SetFlush, Signal]
    ensures
      var t := Run(Initial(false, 1, 1), steps);
      && t.file == [b] && t.flush && t.flushed == 0
      && forall e :: GoesOn(e) && e != Interrupt ==> !Enabled(t, e)
  {
    steps := [Push([b]), Signal, SetFlush, Signal, ReadByte, Command, Timer, Test, Take, Put, Advise, Test];
    assert steps[0..] == steps;
    OneByteRun(Initial(false, 1, 1), steps, b);
  }

  lemma OneByteRun(s: State, steps: seq<Step>, b: byte)
    requires s == Initial(false, 1, 1) && |steps| == 12
    requires steps[0] == Push([b]) && steps[1] == Signal && steps[2] == SetFlush && steps[3] == Signal
    requires steps[4] == ReadByte && steps[5] == Command && steps[6] == Timer && steps[7] == Test
    requires steps[8] == Take && steps[9] == Put && steps[10] == Advise && steps[11] == Test
    ensures
      Run(s, steps[0..])
      == s.(accepted := [b], position := 1, pipe := 0, flush := true, child := Reading, file := [b], childOffset := 1)
  {
    assert s.queue + [[b]] == [[b]] && s.accepted + [b] == [b] && s.file + [b] == [b];
    var s4 := s.(queue := [[b]], accepted := [b], position := 1, pipe := 1, flush := true);
    var s8 := s4.(pipe := 0, child := Taking(false));
    var s12 := s8.(queue := [], child := Reading, file := [b], childOffset := 1);
    Asking(s, steps, b, s4);
    Waking(s4, steps, s8);
    Writing(s8, steps, b, s12);
    assert steps[12..] == [];
  }

  lemma Asking(s: State, steps: seq<Step>, b: byte, t: State)
    requires |steps| >= 4 && s.blockSize > 0 && s.capacity == 1 && s.pipe == 0 && s.parent == Free
    requires steps[0] == Push([b]) && steps[1] == Signal && steps[2] == SetFlush && steps[3] == Signal
    requires t == s.(queue := s.queue + [[b]], accepted := s.accepted + [b], position := s.position + 1, pipe := 1, flush := true)
    ensures Run(s, steps[0..]) == Run(t, steps[4..])
  {
    var s2 := t.(flush := s.flush);
    Next(s, steps, 0, s2.(pipe := 0, parent := Signalling));
    Next(s2.(pipe := 0, parent := Signalling), steps, 1, s2);
    Next(s2, steps, 2, t.(parent := Signalling));
    Next(t.(parent := Signalling), steps, 3, t);
  }

  lemma Waking(s: State, steps: seq<Step>, t: State)
    requires |steps| >= 8 && s.blockSize > 0 && s.pipe == 1 && s.child == Reading && s.queue != []
    requires steps[4] == ReadByte && steps[5] == Command && steps[6] == Timer && steps[7] == Test
    requires s.flush && !s.done && !s.timerFired && s.flushed == |s.file| && t == s.(pipe := 0, child := Taking(false))
    ensures Run(s, steps[4..]) == Run(t, steps[8..])
  {
    Next(s, steps, 4, t.(child := Woken));
    Next(t.(child := Woken), steps, 5, t.(child := Checked));
    Next(t.(child := Checked), steps, 6, t.(child := Working(false)));
    Next(t.(child := Working(false)), steps, 7, t);
  }

  lemma Writing(s: State, steps: seq<Step>, b: byte, t: State)
    requires |steps| >= 12 && s.blockSize > 0 && s.child == Taking(false) && s.queue == [[b]] && !s.async
    requires steps[8] == Take && steps[9] == Put && steps[10] == Advise && steps[11] == Test
    requires t == s.(queue := [], child := Reading, file := s.file + [b], childOffset := s.childOffset + 1)
    ensures Run(s, steps[8..]) == Run(t, steps[12..])
  {
    assert s.queue[1..] == [];
    Next(s, steps, 8, s.(queue := [], child := Holding([b], false)));
    Next(s.(queue := [], child := Holding([b], false)), steps, 9, t.(child := Advising(false)));
    Next(t.(child := Advising(false)), steps, 10, t.(child := Working(false)));
    Next(t.(child := Working(false)), steps, 11, t);
  }

  lemma Next(s: State, steps: seq<Step>, i: nat, t: State)
    requires i < |steps| && s.blockSize > 0 && Enabled(s, steps[i]) && t == Apply(s, steps[i])
    ensures Run(s, steps[i..]) == Run(t, steps[i + 1..])
  {
    assert steps[i..][0] == steps[i] && steps[i..][1..] == steps[i + 1..];
  }
}
