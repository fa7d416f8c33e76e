/** The background writer: one thread queues buffers, another writes them to a file, and a pipe wakes it up. */
module ThreadWriter {
  import opened Bytes

  /** Where the owning thread is: between calls, about to signal, or on its way through the destructor. */
  datatype Parent = Free | Signalling | SignallingDone | Joining | Draining | Gone

  /** Where the background thread is; `final` once it has seen that the writer is being destroyed. */
  datatype Child =
    | Reading
    | Woken
    | Checked
    | Working(final: bool)
    | Taking(final: bool)
    | Holding(buffer: seq<byte>, final: bool)
    | Advising(final: bool)
    | Leaving
    | Exited

  /** The file includes what stdio still buffers; `flushed` is how much of it stdio has passed on.  `accepted` is
      everything handed to Write so far, in order. */
  datatype State = State(
    async: bool,
    blockSize: nat,
    capacity: nat,
    parent: Parent,
    child: Child,
    timers: nat,
    pipe: nat,
    queue: seq<seq<byte>>,
    flush: bool,
    done: bool,
    timerFired: bool,
    file: seq<byte>,
    flushed: nat,
    position: nat,
    childOffset: nat,
    lastFadvise: nat,
    accepted: seq<byte>)

  datatype Step =
    | Push(buffer: seq<byte>) | SetFlush | Destroy | Signal | Join | Drain | Finish
    | Fire | TimerSignal
    | ReadByte | Interrupt | Command | Timer | Test | Take | Put | Advise | FinalFlush

  function Initial(async: bool, blockSize: nat, capacity: nat): State {
    State(async, blockSize, capacity, Free, Reading, 0, 0, [], false, false, false, [], 0, 0, 0, 0, [])
  }

  /** Buffers are never empty: writing one of no bytes is an error of the file. */
  predicate Enabled(s: State, e: Step) {
    match e
    case Push(b) => s.parent == Free && b != []
    case SetFlush => s.parent == Free
    case Destroy => s.parent == Free
    case Signal => s.parent == Signalling || s.parent == SignallingDone
    case Join => s.parent == Joining && s.child == Exited
    case Drain => s.parent == Draining && s.queue != []
    case Finish => s.parent == Draining && s.queue == []
    case Fire => s.parent != Gone
    case TimerSignal => s.timers > 0
    case ReadByte => s.child == Reading && s.pipe > 0
    case Interrupt => s.child == Reading
    case Command => s.child == Woken
    case Timer => s.child == Checked
    case Test => s.child.Working?
    case Take => s.child.Taking? && s.queue != []
    case Put => s.child.Holding?
    case Advise => s.child.Advising?
    case FinalFlush => s.child == Leaving
  }

  /** A write to a full pipe fails and is dropped. */
  function Signalled(s: State): State {
    s.(pipe := if s.pipe < s.capacity then s.pipe + 1 else s.pipe)
  }

  function Flushed(s: State): State {
    s.(flushed := |s.file|)
  }

  /** The loop in StartWrite: whole blocks, as long as one more ends before `offset`. */
  function NextFadvise(last: nat, offset: nat, blockSize: nat): (next: nat)
    requires blockSize > 0
    decreases offset - last
  {
    if last + blockSize < offset then NextFadvise(last + blockSize, offset, blockSize) else last
  }

  function Advised(s: State): State
    requires s.blockSize > 0
  {
    if s.async && s.childOffset - s.lastFadvise > s.blockSize
    then Flushed(s).(lastFadvise := NextFadvise(s.lastFadvise, s.childOffset, s.blockSize))
    else s
  }

  function Apply(s: State, e: Step): State
    requires Enabled(s, e) && s.blockSize > 0
  {
    match e
    case Push(b) => s.(position := s.position + |b|, queue := s.queue + [b], accepted := s.accepted + b, parent := Signalling)
    case SetFlush => s.(flush := true, parent := Signalling)
    case Destroy => s.(done := true, parent := SignallingDone)
    case Signal => Signalled(s).(parent := if s.parent == SignallingDone then Joining else Free)
    case Join => s.(parent := Draining)
    case Drain => s.(file := s.file + s.queue[0], childOffset := s.childOffset + |s.queue[0]|, queue := s.queue[1..])
    case Finish => s.(parent := Gone)
    case Fire => s.(timerFired := true, timers := s.timers + 1)
    case TimerSignal => Signalled(s).(timers := s.timers - 1)
    case ReadByte => s.(pipe := s.pipe - 1, child := Woken)
    case Interrupt => s.(child := Woken)
    case Command =>
      if s.done then s.(child := Working(true))
      else (if s.flush then Flushed(s) else s).(child := Checked)
    case Timer => (if s.timerFired then Flushed(s) else s).(child := Working(false))
    case Test =>
      s.(child := if s.queue != [] then Taking(s.child.final) else if s.child.final then Leaving else Reading)
    case Take => s.(queue := s.queue[1..], child := Holding(s.queue[0], s.child.final))
    case Put =>
      s.(file := s.file + s.child.buffer, childOffset := s.childOffset + |s.child.buffer|, child := Advising(s.child.final))
    case Advise => Advised(s).(child := Working(s.child.final))
    case FinalFlush => Flushed(s).(child := Exited)
  }

  function Concat(bs: seq<seq<byte>>): seq<byte> {
    if bs == [] then [] else bs[0] + Concat(bs[1..])
  }

  function Held(c: Child): seq<byte> {
    if c.Holding? then c.buffer else []
  }

  // ----- what every step keeps

  /** File, buffer in hand and queue are together everything that was written, in order. */
  ghost predicate Conserved(s: State) {
    && s.file + Held(s.child) + Concat(s.queue) == s.accepted
    && s.position == |s.accepted| && s.childOffset == |s.file| && s.flushed <= |s.file|
  }

  /** The background thread will look at the queue again before it sleeps. */
  predicate Busy(c: Child) {
    c.Woken? || c.Checked? || c.Working? || c.Taking? || c.Holding? || c.Advising?
  }

  /** Nothing is left lying: a wake-up is pending, or about to be, or the thread is awake. */
  ghost predicate Awake(s: State) {
    && s.pipe <= s.capacity
    && (s.queue != [] ==> s.pipe > 0 || s.parent == Signalling || s.parent == SignallingDone || Busy(s.child))
    && (s.done && !Final(s.child) && s.child != Woken ==> s.pipe > 0 || s.parent == SignallingDone)
  }

  ghost predicate Orderly(s: State) {
    && (s.done <==> s.parent == SignallingDone || s.parent == Joining || s.parent == Draining || s.parent == Gone)
    && (Final(s.child) ==> s.done)
    && (s.child == Leaving || s.child == Exited ==> s.queue == [])
    && (s.child == Exited ==> s.flushed == |s.file|)
    && (s.child.Taking? ==> s.queue != [])
    && (s.parent == Draining || s.parent == Gone ==> s.child == Exited)
    && (forall i :: 0 <= i < |s.queue| ==> s.queue[i] != [])
    && (s.child.Holding? ==> s.child.buffer != [])
  }

  predicate Final(c: Child) {
    c == Leaving || c == Exited || ((c.Working? || c.Taking? || c.Holding? || c.Advising?) && c.final)
  }

  /** The advice given so far covers whole blocks, all of them passed on already; between writes it is at most one block
      behind. */
  ghost predicate AdvisedWell(s: State) {
    && s.lastFadvise <= s.flushed
    && (exists k: nat :: s.lastFadvise == k * s.blockSize)
    && (s.async && !s.child.Advising? ==> s.childOffset - s.lastFadvise <= s.blockSize)
  }

  ghost predicate Inv(s: State) {
    s.blockSize > 0 && s.capacity > 0 && Conserved(s) && Awake(s) && Orderly(s) && AdvisedWell(s)
  }

  lemma InitialInv(async: bool, blockSize: nat, capacity: nat)
    requires blockSize > 0 && capacity > 0
    ensures Inv(Initial(async, blockSize, capacity))
  {
    assert 0 == 0 * blockSize;
  }

  lemma {:induction false} ConcatAppend(bs: seq<seq<byte>>, b: seq<byte>)
    ensures Concat(bs + [b]) == Concat(bs) + b
  {
    if bs == [] {
      assert [b][1..] == [] && b + [] == b && [] + [b] == [b] && [] + b == b;
    } else {
      assert (bs + [b])[1..] == bs[1..] + [b];
      ConcatAppend(bs[1..], b);
      Assoc(bs[0], Concat(bs[1..]), b);
    }
  }

  lemma StepKeepsConserved(s: State, e: Step)
    requires Inv(s) && Enabled(s, e)
    ensures Conserved(Apply(s, e))
  {
    match e
    case Push(b) =>
      ConcatAppend(s.queue, b);
      Assoc(s.file + Held(s.child), Concat(s.queue), b);
    case Take =>
      Assoc(s.file, s.queue[0], Concat(s.queue[1..]));
      assert s.file + [] == s.file;
    case Put =>
      assert s.file + s.child.buffer + [] == s.file + s.child.buffer;
    case _ =>
  }

  lemma {:induction false} NextFadviseIs(last: nat, offset: nat, blockSize: nat, k: nat)
    requires blockSize > 0 && last == k * blockSize && last <= offset
    ensures
      var next := NextFadvise(last, offset, blockSize);
      last <= next <= offset && offset - next <= blockSize && exists j: nat :: next == j * blockSize
    decreases offset - last
  {
    if last + blockSize < offset {
      assert last + blockSize == (k + 1) * blockSize;
      NextFadviseIs(last + blockSize, offset, blockSize, k + 1);
    }
  }

  lemma StepKeepsAdvice(s: State, e: Step)
    requires Inv(s) && Enabled(s, e)
    ensures AdvisedWell(Apply(s, e))
  {
    var k: nat :| s.lastFadvise == k * s.blockSize;
    match e
    case Advise => NextFadviseIs(s.lastFadvise, s.childOffset, s.blockSize, k);
    case Drain =>
    case _ => assert Apply(s, e).lastFadvise == k * s.blockSize;
  }

  /** Every interleaving of the two threads and the timer keeps all of it. */
  lemma StepKeepsInv(s: State, e: Step)
    requires Inv(s) && Enabled(s, e)
    ensures Inv(Apply(s, e))
  {
    StepKeepsConserved(s, e);
    StepKeepsAdvice(s, e);
    StepKeepsAwake(s, e);
    StepKeepsOrderly(s, e);
  }

  lemma StepKeepsAwake(s: State, e: Step)
    requires Inv(s) && Enabled(s, e)
    ensures Awake(Apply(s, e))
  {
    match e
    case Test => assert Apply(s, e).queue == s.queue;
    case _ =>
  }

  lemma StepKeepsOrderly(s: State, e: Step)
    requires Inv(s) && Enabled(s, e)
    ensures Orderly(Apply(s, e))
  {
    match e
    case Push(b) => assert s.parent == Free;
    case _ =>
  }

  function Run(s: State, steps: seq<Step>): State
    requires s.blockSize > 0
    decreases |steps|
  {
    if steps == [] || !Enabled(s, steps[0]) then s else Run(Apply(s, steps[0]), steps[1..])
  }

  lemma {:induction false} RunKeepsInv(s: State, steps: seq<Step>)
    requires Inv(s)
    ensures Inv(Run(s, steps))
    decreases |steps|
  {
    if steps != [] && Enabled(s, steps[0]) {
      StepKeepsInv(s, steps[0]);
      RunKeepsInv(Apply(s, steps[0]), steps[1..]);
    }
  }

  // ----- what follows for every run

  /** The file never holds anything but a first part of what was written, and when the writer is gone it holds all of
      it, flushed. */
  lemma NothingIsLost(async: bool, blockSize: nat, capacity: nat, steps: seq<Step>)
    requires blockSize > 0 && capacity > 0
    ensures
      var t := Run(Initial(async, blockSize, capacity), steps);
      && t.file <= t.accepted
      && (t.parent == Gone ==> t.file == t.accepted && t.flushed == |t.file|)
  {
    InitialInv(async, blockSize, capacity);
    RunKeepsInv(Initial(async, blockSize, capacity), steps);
    var t := Run(Initial(async, blockSize, capacity), steps);
    Assoc(t.file, Held(t.child), Concat(t.queue));
    if t.parent == Gone {
      assert t.file + [] == t.file;
    }
  }

  /** No wake-up is lost: with anything queued, a step other than a new call can be taken. */
  lemma QueuedMeansProgress(s: State) returns (e: Step)
    requires Inv(s) && s.queue != []
    ensures Enabled(s, e) && (e.Signal? || e.ReadByte? || e.Command? || e.Timer? || e.Test? || e.Take? || e.Put? || e.Advise?)
  {
    match s.child
    case Reading => e := if s.pipe > 0 then ReadByte else Signal;
    case Woken => e := Command;
    case Checked => e := Timer;
    case Working(_) => e := Test;
    case Taking(_) => e := Take;
    case Holding(_, _) => e := Put;
    case Advising(_) => e := Advise;
    case Leaving => e := Signal; assert false;
    case Exited => e := Signal; assert false;
  }

  /** A destructor that has begun is never stuck. */
  lemma DestructionProceeds(s: State) returns (e: Step)
    requires Inv(s) && s.done && s.parent != Gone
    ensures Enabled(s, e) && !e.Fire? && !e.TimerSignal? && !e.Interrupt?
  {
    match s.child
    case Reading => e := if s.pipe > 0 then ReadByte else Signal;
    case Woken => e := Command;
    case Checked => e := Timer;
    case Working(_) => e := Test;
    case Taking(_) => e := Take;
    case Holding(_, _) => e := Put;
    case Advising(_) => e := Advise;
    case Leaving => e := FinalFlush;
    case Exited =>
      e := if s.parent == SignallingDone then Signal else if s.parent == Joining then Join
           else if s.queue != [] then Drain else Finish;
  }

  /** How many steps are left at most. */
  function StepsLeft(s: State): nat {
    20 * |s.queue| + ChildRank(s.child)
    + (match s.parent case SignallingDone => 3 case Joining => 2 case Draining => 1 case _ => 0)
  }

  function ChildRank(c: Child): nat {
    match c
    case Exited => 0
    case Leaving => 1
    case Taking(final) => if final then 2 else 8
    case Working(final) => if final then 3 else 9
    case Advising(final) => if final then 4 else 10
    case Holding(_, final) => if final then 5 else 11
    case Woken => 6
    case Reading => 7
    case Checked => 12
  }

  /** And it ends: timers aside, every step brings it nearer. */
  lemma DestructionEnds(s: State, e: Step)
    requires Inv(s) && s.done && Enabled(s, e) && !e.Fire? && !e.TimerSignal?
    ensures StepsLeft(Apply(s, e)) < StepsLeft(s)
  {
  }

  /** From a look at a queue that is not empty to the next look. */
  lemma RoundIs(s: State)
    requires Inv(s) && s.child.Working? && s.queue != []
    ensures
      var t := Apply(Apply(Apply(Apply(s, Test), Take), Put), Advise);
      && t.child == s.child && t.queue == s.queue[1..] && t.file == s.file + s.queue[0]
      && t.parent == s.parent && t.done == s.done && t.accepted == s.accepted
  {
  }

  // ----- the code of the two threads

  /** Each method is one stretch of the source between two points where another thread may come in, or several of them
      when nothing does; `parent`, `child`, `timers` and `accepted` only say where the threads are and what was
      accepted. */
  class Writer {
    const async: bool
    const blockSize: nat
    const capacity: nat
    var pipe: nat
    var data: seq<seq<byte>>
    var flush: bool
    var done: bool
    var timerFired: bool
    var file: seq<byte>
    var flushed: nat
    var position: nat
    var childOffset: nat
    var lastFadvise: nat
    ghost var parent: Parent
    ghost var child: Child
    ghost var timers: nat
    ghost var accepted: seq<byte>

    ghost function Now(): State
      reads this
    {
      State(async, blockSize, capacity, parent, child, timers, pipe, data, flush, done, timerFired, file, flushed, position,
            childOffset, lastFadvise, accepted)
    }

    ghost predicate Valid()
      reads this
    {
      Inv(Now())
    }

    constructor (async: bool, blockSize: nat, capacity: nat)
      requires blockSize > 0 && capacity > 0
      ensures Valid() && Now() == Initial(async, blockSize, capacity)
    {
      this.async, this.blockSize, this.capacity := async, blockSize, capacity;
      pipe, data, flush, done, timerFired := 0, [], false, false, false;
      file, flushed, position, childOffset, lastFadvise := [], 0, 0, 0, 0;
      parent, child, timers, accepted := Free, Reading, 0, [];
      new;
      InitialInv(async, blockSize, capacity);
    }

    /** Write, up to the signal. */
    method PushBack(buffer: seq<byte>)
      requires Valid() && Enabled(Now(), Push(buffer))
      modifies this
      ensures Valid() && Now() == Apply(old(Now()), Push(buffer))
    {
      StepKeepsInv(Now(), Push(buffer));
      position := position + |buffer|;
      data := data + [buffer];
      parent, accepted := Signalling, accepted + buffer;
    }

    /** SignalThread, called by the owning thread: a full pipe is signal enough. */
    method SignalThread()
      requires Valid() && Enabled(Now(), Signal)
      modifies this
      ensures Valid() && Now() == Apply(old(Now()), Signal)
    {
      StepKeepsInv(Now(), Signal);
      if pipe < capacity {
        pipe := pipe + 1;
      }
      parent := if parent == SignallingDone then Joining else Free;
    }

    /** What the background thread does under the command lock once it has read a byte. */
    method CheckCommands()
      requires Valid() && child == Woken
      modifies this
      ensures Valid() && Now() == Apply(old(Now()), Command)
    {
      StepKeepsInv(Now(), Command);
      if done {
        child := Working(true);
      } else {
        if flush {
          flushed := |file|;
        }
        child := Checked;
      }
    }

    /** WriteFront: the front buffer leaves the queue, then goes to the file. */
    method WriteFront()
      requires Valid() && child.Taking?
      modifies this
      ensures Valid() && Now() == Apply(Apply(old(Now()), Take), Put)
    {
      var buffer := PopFront();
      WriteHeld(buffer);
    }

    method PopFront() returns (buffer: seq<byte>)
      requires Valid() && child.Taking?
      modifies this
      ensures Valid() && Now() == Apply(old(Now()), Take) && child.buffer == buffer
    {
      StepKeepsInv(Now(), Take);
      buffer := data[0];
      child := Holding(buffer, child.final);
      data := data[1..];
    }

    method WriteHeld(buffer: seq<byte>)
      requires Valid() && child.Holding? && child.buffer == buffer
      modifies this
      ensures Valid() && Now() == Apply(old(Now()), Put)
    {
      StepKeepsInv(Now(), Put);
      file := file + buffer;
      childOffset := childOffset + |buffer|;
      child := Advising(child.final);
    }

    /** StartWrite: a buffer, and advice on the whole blocks it completed. */
    method StartWrite()
      requires Valid() && child.Taking?
      modifies this
      ensures Valid() && Now() == Apply(Apply(Apply(old(Now()), Take), Put), Advise)
    {
      WriteFront();
      AdviseBlocks();
    }

    /** At block boundaries, asynchronous mode only. */
    method AdviseBlocks()
      requires Valid() && child.Advising?
      modifies this
      ensures Valid() && Now() == Apply(old(Now()), Advise)
    {
      ghost var s := Now();
      StepKeepsInv(s, Advise);
      if async && childOffset - lastFadvise > blockSize {
        FlushAndAdvise();
      }
      child := Working(child.final);
    }

    method FlushAndAdvise()
      requires blockSize > 0
      modifies this`flushed, this`lastFadvise
      ensures flushed == |file| && lastFadvise == NextFadvise(old(lastFadvise), childOffset, blockSize)
    {
      flushed := |file|;
      lastFadvise := WholeBlocks();
    }

    method WholeBlocks() returns (nextFadvise: nat)
      requires blockSize > 0
      ensures nextFadvise == NextFadvise(lastFadvise, childOffset, blockSize)
    {
      nextFadvise := lastFadvise;
      while nextFadvise + blockSize < childOffset
        invariant NextFadvise(nextFadvise, childOffset, blockSize) == NextFadvise(lastFadvise, childOffset, blockSize)
        decreases childOffset - nextFadvise
      {
        nextFadvise := nextFadvise + blockSize;
      }
    }

    /** One round of RunWork with something queued. */
    method Round()
      requires Valid() && child.Working? && data != []
      modifies this
      ensures Valid() && child == old(child) && data == old(data)[1..] && file == old(file) + old(data)[0]
      ensures parent == old(parent) && done == old(done) && accepted == old(accepted)
    {
      ghost var s := Now();
      StepKeepsInv(s, Test);
      child := Taking(child.final);
      assert Now() == Apply(s, Test);
      StartWrite();
      RoundIs(s);
    }

    /** RunWork, when nothing is queued meanwhile: everything queued is in the file, in order. */
    method RunWork()
      requires Valid() && child.Working?
      modifies this
      ensures Valid() && data == [] && file == old(file) + Concat(old(data)) && accepted == old(accepted)
      ensures child == if old(child).final then Leaving else Reading
      ensures parent == old(parent) && done == old(done)
    {
      ghost var all := file + Concat(data);
      while data != []
        invariant Valid() && child == old(child) && file + Concat(data) == all && accepted == old(accepted)
        invariant parent == old(parent) && done == old(done)
        decreases |data|
      {
        Assoc(file, data[0], Concat(data[1..]));
        Round();
      }
      assert file + [] == file;
      StepKeepsInv(Now(), Test);
      child := if child.final then Leaving else Reading;
    }
  }
}
