/** The device's receiver and writer: one fixed buffer, in which a frame must come to rest whole. */
module MicroStreamDatagram {
  import opened Bytes
  import opened Streams
  import opened Varuint
  import opened Framing

  /** The outcome of one attempt on the buffered bytes: whether the caller should stop, and what is left. */
  datatype Attempt = Attempt(done: bool, left: seq<byte>, packet: Option<Packet>)

  function TryEmit(c: Crc, space: nat, b: seq<byte>): (a: Attempt)
    requires space >= 7
    ensures |a.left| <= |b| && (a.packet.Some? ==> a.done && |a.left| + 7 <= |b|)
  {
    var i := FirstHeader(b);
    if i == |b| then Attempt(false, [], None) else AtHeader(c, space, b[i..])
  }

  function AtHeader(c: Crc, space: nat, b: seq<byte>): (a: Attempt)
    requires space >= 7 && b != []
    ensures |a.left| <= |b| && (a.packet.Some? ==> a.done && |a.left| + 7 <= |b|)
  {
    if |b| < 2 then Attempt(false, b, None)
    else if b[1] != HEADER_HIGH then Attempt(true, b[2..], None)
    else if |b| < 7 then Attempt(false, b, None)
    else
      match Decode32(b[4..])
      case Got(size, rest) =>
        if size > 4096 || size > space - 7 then Attempt(false, [], None)
        else if |rest| < size + 2 then Attempt(false, b, None)
        else if FromLE(rest[size..size + 2]) != Checksum(c, b[..|b| - |rest| + size]) then Attempt(false, b[2..], None)
        else Attempt(true, rest[size + 2..], Some(Packet(b[2], b[3], rest[..size])))
      case _ => Attempt(false, b, None)
  }

  /** The last checks, by positions in the buffer: the size was read, and it ends at `start`. */
  lemma AtHeaderAt(c: Crc, space: nat, b: seq<byte>, size: nat, start: nat)
    requires space >= 7 && |b| >= 7 && b[1] == HEADER_HIGH
    requires start <= |b| && Decode32(b[4..]) == Got(size, b[start..])
    ensures
      AtHeader(c, space, b) ==
        if size > 4096 || size > space - 7 then Attempt(false, [], None)
        else if |b| < start + size + 2 then Attempt(false, b, None)
        else if FromLE(b[start + size..start + size + 2]) != Checksum(c, b[..start + size]) then Attempt(false, b[2..], None)
        else Attempt(true, b[start + size + 2..], Some(Packet(b[2], b[3], b[start..start + size])))
  {
    if start + size + 2 <= |b| {
      SliceOfSuffix(b, start, size, size + 2);
      SliceOfSuffix(b, start, 0, size);
    }
  }

  // ----- what is delivered was a frame, and a frame is delivered

  /** A delivered packet comes from a frame in the buffer, of which nothing is left. */
  lemma DeliveredIsFrame(c: Crc, space: nat, b: seq<byte>) returns (skipped: seq<byte>, frame: seq<byte>)
    requires space >= 7 && TryEmit(c, space, b).packet.Some?
    ensures b == skipped + frame + TryEmit(c, space, b).left
    ensures IsFrame(c, frame, TryEmit(c, space, b).packet.value) && Quiet(skipped)
  {
    var i, a := FirstHeader(b), TryEmit(c, space, b);
    skipped := b[..i];
    var d := b[i..];
    var n := |d| - |a.left|;
    frame := d[..n];
    Whole(c, space, d);
    Joined(b, i, n);
  }

  lemma Whole(c: Crc, space: nat, b: seq<byte>)
    requires space >= 7 && b != [] && b[0] == HEADER_LOW && AtHeader(c, space, b).packet.Some?
    ensures
      var a := AtHeader(c, space, b);
      var n := |b| - |a.left|;
      b[n..] == a.left && IsFrame(c, b[..n], a.packet.value)
  {
    var a := AtHeader(c, space, b);
    var Got(size, rest) := Decode32(b[4..]);
    var n, head := |b| - |a.left|, |b| - |rest|;
    SizeInside(b, n);
    AtHeaderAt(c, space, b, size, head);
    CutAt(b, n, head, size);
    CheckedIsFrame(c, b[..n], size, head);
  }

  /** Buffered bytes that start with a whole frame within the limits. */
  lemma FrameIsDelivered(c: Crc, space: nat, frame: seq<byte>, p: Packet, b: seq<byte>)
    requires IsFrame(c, frame, p) && |p.payload| <= 4096 && |p.payload| <= space - 7
    requires |frame| <= |b| && b[..|frame|] == frame
    ensures AtHeader(c, space, b) == Attempt(true, b[|frame|..], Some(p))
  {
    SeenOfFrame(c, frame, p, b, [], b[|frame|..]);
    PartsOfFrame(c, frame, p, b);
    var h, size := HeadSize(frame, p), |p.payload|;
    AtHeaderAt(c, space, b, size, h);
  }

  /** A first part of a frame is kept, to be completed. */
  lemma PartIsKept(c: Crc, space: nat, frame: seq<byte>, p: Packet, b: seq<byte>, rest: seq<byte>, after: seq<byte>)
    requires IsFrame(c, frame, p) && |p.payload| <= 4096 && |p.payload| <= space - 7
    requires b + rest == frame + after && 0 < |b| < |frame|
    ensures AtHeader(c, space, b) == Attempt(false, b, None)
  {
    SeenOfFrame(c, frame, p, b, rest, after);
  }

  /** One attempt on part of a clear line: the next packet, or everything from the first unfinished frame is kept, with
      room for more. */
  lemma Attempted(c: Crc, space: nat, line: Line, b: seq<byte>, rest: seq<byte>) returns (next: Line)
    requires space >= 7 && Clear(c, line, space, 4096) && b + rest == BytesOf(line)
    ensures Clear(c, next, space, 4096) && TryEmit(c, space, b).left + rest == BytesOf(next)
    ensures
      var a := TryEmit(c, space, b);
      if a.done then a.packet.Some? && PacketsOf(line.items) == [a.packet.value] + PacketsOf(next.items)
      else a.packet == None && PacketsOf(line.items) == PacketsOf(next.items)
           && |a.left| < space && (rest == [] ==> next.items == [])
  {
    var n := NoiseFirst(c, line, b, rest, space, 4096);
    next := Quieter(line, n);
    if n == |b| {
      if line.items != [] {
        assert ClearItem(c, line.items[0], space, 4096);
        LineIsLong(line);
      }
      return;
    }
    var first := line.items[0];
    assert ClearItem(c, first, space, 4096);
    var d := b[n..];
    if |d| < |first.frame| {
      PartIsKept(c, space, first.frame, first.packet, d, rest, BytesOf(Later(line)));
      assert |d| + |rest| == |first.frame| + |BytesOf(Later(line))|;
    } else {
      SeenOfFrame(c, first.frame, first.packet, d, rest, BytesOf(Later(line)));
      FrameIsDelivered(c, space, first.frame, first.packet, d);
      next := Later(line);
    }
  }

  // ----- the receiver as a state machine

  /** `asking` while a callback waits for a frame, `reading` while a read of the underlying stream is out. */
  datatype Receiver = Receiver(buffer: seq<byte>, asking: bool, reading: bool, delivered: seq<Packet>)

  /** The client asks for a frame, or a read comes back, with some bytes or with an error. */
  datatype Event = Ask | Arrive(chunk: seq<byte>) | Fail

  function ChunkOf(e: Event): seq<byte> {
    if e.Arrive? then e.chunk else []
  }

  /** A client asks again only once it was answered; a read returns no more than it was offered room for. */
  predicate Allowed(space: nat, s: Receiver, e: Event) {
    match e
    case Ask => !s.asking
    case Arrive(chunk) => s.reading && |s.buffer| + |chunk| <= space
    case Fail => s.reading
  }

  function Step(c: Crc, space: nat, s: Receiver, e: Event): Receiver
    requires space >= 7
  {
    if e.Fail? then Receiver([], false, false, s.delivered)
    else
      var a := TryEmit(c, space, s.buffer + ChunkOf(e));
      match a.packet
      case Some(p) => Receiver(a.left, false, false, s.delivered + [p])
      case None => Receiver(a.left, true, !a.done, s.delivered)
  }

  function Run(c: Crc, space: nat, s: Receiver, events: seq<Event>): Receiver
    requires space >= 7
    decreases |events|
  {
    if events == [] then s else Run(c, space, Step(c, space, s, events[0]), events[1..])
  }

  predicate AllAllowed(c: Crc, space: nat, s: Receiver, events: seq<Event>)
    requires space >= 7
    decreases |events|
  {
    events != [] ==> Allowed(space, s, events[0]) && AllAllowed(c, space, Step(c, space, s, events[0]), events[1..])
  }

  function Arrived(events: seq<Event>): seq<byte> {
    if events == [] then []
    else ChunkOf(events[0]) + Arrived(events[1..])
  }

  predicate NoneFails(events: seq<Event>) {
    forall i :: 0 <= i < |events| ==> !events[i].Fail?
  }

  /** With `rest` still to arrive, the receiver is in step with what remains of the line. */
  ghost predicate InStep(c: Crc, space: nat, s: Receiver, rest: seq<byte>, todo: Line, all: seq<Packet>) {
    && Clear(c, todo, space, 4096)
    && s.buffer + rest == BytesOf(todo)
    && s.delivered + PacketsOf(todo.items) == all
    && s.reading == s.asking
    && (s.reading ==> |s.buffer| < space && (rest == [] ==> todo.items == []))
  }

  lemma StepKeepsInStep(c: Crc, space: nat, s: Receiver, e: Event, coming: seq<byte>, rest: seq<byte>, todo: Line,
                        all: seq<Packet>)
    returns (next: Line)
    requires space >= 7 && Allowed(space, s, e) && !e.Fail? && coming == ChunkOf(e) + rest
    requires InStep(c, space, s, coming, todo, all)
    ensures InStep(c, space, Step(c, space, s, e), rest, next, all)
  {
    var b := s.buffer + ChunkOf(e);
    assert b + rest == s.buffer + coming;
    next := Attempted(c, space, todo, b, rest);
    var a := TryEmit(c, space, b);
    if a.packet.Some? {
      assert s.delivered + [a.packet.value] + PacketsOf(next.items)
          == s.delivered + ([a.packet.value] + PacketsOf(next.items));
    }
  }

  lemma OneEvent(c: Crc, space: nat, s: Receiver, events: seq<Event>) returns (s1: Receiver)
    requires space >= 7 && events != [] && AllAllowed(c, space, s, events)
    ensures s1 == Step(c, space, s, events[0]) && Allowed(space, s, events[0])
    ensures AllAllowed(c, space, s1, events[1..]) && Run(c, space, s, events) == Run(c, space, s1, events[1..])
  {
    s1 := Step(c, space, s, events[0]);
  }

  lemma LaterBytes(events: seq<Event>, coming: seq<byte>, rest: seq<byte>, later: seq<byte>)
    requires events != [] && coming == Arrived(events) + rest && later == Arrived(events[1..]) + rest
    ensures coming == ChunkOf(events[0]) + later
  {
  }

  lemma FirstEvent(c: Crc, space: nat, s: Receiver, events: seq<Event>, coming: seq<byte>, rest: seq<byte>, todo: Line,
                   all: seq<Packet>)
    returns (s1: Receiver, later: seq<byte>, next: Line)
    requires space >= 7 && events != [] && AllAllowed(c, space, s, events) && coming == Arrived(events) + rest
    requires InStep(c, space, s, coming, todo, all) && !events[0].Fail?
    ensures AllAllowed(c, space, s1, events[1..]) && Run(c, space, s, events) == Run(c, space, s1, events[1..])
    ensures later == Arrived(events[1..]) + rest && InStep(c, space, s1, later, next, all)
  {
    s1 := OneEvent(c, space, s, events);
    later := Arrived(events[1..]) + rest;
    LaterBytes(events, coming, rest, later);
    next := StepKeepsInStep(c, space, s, events[0], coming, later, todo, all);
  }

  lemma {:induction false} RunKeepsInStep(c: Crc, space: nat, s: Receiver, events: seq<Event>, coming: seq<byte>,
                                          rest: seq<byte>, todo: Line, all: seq<Packet>)
    returns (left: Line)
    requires space >= 7 && AllAllowed(c, space, s, events) && coming == Arrived(events) + rest
    requires InStep(c, space, s, coming, todo, all) && NoneFails(events)
    ensures InStep(c, space, Run(c, space, s, events), rest, left, all)
    decreases |events|
  {
    if events == [] {
      left := todo;
      assert coming == rest;
    } else {
      var s1, later, next := FirstEvent(c, space, s, events, coming, rest, todo, all);
      left := RunKeepsInStep(c, space, s1, events[1..], later, rest, next, all);
    }
  }

  /** However the bytes of a clear line are split and whenever the client asks, the receiver hands over its frames
      unchanged, once and in order, as long as no read fails; it never gets stuck; its buffer never fills up, so that no
      read has an empty span to read into; and once a read is out with nothing more to come, every frame was handed
      over. */
  lemma ChunkingIsInvisible(c: Crc, space: nat, events: seq<Event>, rest: seq<byte>, line: Line)
    requires space >= 7 && AllAllowed(c, space, Receiver([], false, false, []), events)
    requires Clear(c, line, space, 4096) && Arrived(events) + rest == BytesOf(line) && NoneFails(events)
    ensures
      var t := Run(c, space, Receiver([], false, false, []), events);
      && t.delivered <= PacketsOf(line.items)
      && (t.asking <==> t.reading) && (t.reading ==> |t.buffer| < space)
      && (t.reading && rest == [] ==> t.delivered == PacketsOf(line.items))
  {
    var coming := Arrived(events) + rest;
    assert [] + coming == BytesOf(line);
    assert [] + PacketsOf(line.items) == PacketsOf(line.items);
    var left := RunKeepsInStep(c, space, Receiver([], false, false, []), events, coming, rest, line, PacketsOf(line.items));
    var t := Run(c, space, Receiver([], false, false, []), events);
    assert (t.delivered + PacketsOf(left.items))[..|t.delivered|] == t.delivered;
  }

  /** A receiver that has delivered `before` already. */
  function Having(before: seq<Packet>, s: Receiver): Receiver {
    s.(delivered := before + s.delivered)
  }

  /** What was delivered does not matter to what comes. */
  lemma {:induction false} RunHaving(c: Crc, space: nat, before: seq<Packet>, s: Receiver, events: seq<Event>)
    requires space >= 7
    ensures Run(c, space, Having(before, s), events) == Having(before, Run(c, space, s, events))
    ensures AllAllowed(c, space, Having(before, s), events) == AllAllowed(c, space, s, events)
    decreases |events|
  {
    if events != [] {
      var a := TryEmit(c, space, s.buffer + ChunkOf(events[0]));
      if a.packet.Some? {
        Assoc(before, s.delivered, [a.packet.value]);
      }
      assert Step(c, space, Having(before, s), events[0]) == Having(before, Step(c, space, s, events[0]));
      RunHaving(c, space, before, Step(c, space, s, events[0]), events[1..]);
    }
  }

  /** A failed read answers the client, drops what was buffered, and lets the receiver start anew: what it does from
      there on is what a fresh one would, so that it hands over every frame of whatever clear line follows. */
  lemma FailureStartsAnew(c: Crc, space: nat, s: Receiver, events: seq<Event>, rest: seq<byte>, line: Line)
    requires space >= 7 && AllAllowed(c, space, s, [Fail] + events) && NoneFails(events)
    requires Clear(c, line, space, 4096) && Arrived(events) + rest == BytesOf(line)
    ensures
      var t := Run(c, space, s, [Fail] + events);
      && t == Having(s.delivered, Run(c, space, Receiver([], false, false, []), events))
      && s.delivered <= t.delivered <= s.delivered + PacketsOf(line.items)
      && (t.reading && rest == [] ==> t.delivered == s.delivered + PacketsOf(line.items))
  {
    var fresh_ := Receiver([], false, false, []);
    assert ([Fail] + events)[1..] == events;
    assert Step(c, space, s, Fail) == Having(s.delivered, fresh_);
    RunHaving(c, space, s.delivered, fresh_, events);
    ChunkingIsInvisible(c, space, events, rest, line);
    Behind(s.delivered, Run(c, space, fresh_, events).delivered, PacketsOf(line.items));
  }

  lemma Behind<T>(before: seq<T>, part: seq<T>, all: seq<T>)
    requires part <= all
    ensures before <= before + part <= before + all
  {
    assert all == part + all[|part|..];
    Assoc(before, part, all[|part|..]);
  }

  // ----- where the hypotheses are needed

  /** The attempt stops the client without an answer exactly when the first low header byte is a false start. */
  lemma StalledIffFalseStart(c: Crc, space: nat, b: seq<byte>)
    requires space >= 7
    ensures
      var a := TryEmit(c, space, b);
      a.done && a.packet == None <==>
        exists i: nat :: i + 1 < |b| && Quiet(b[..i]) && b[i] == HEADER_LOW && b[i + 1] != HEADER_HIGH
  {
    var n := FirstHeader(b);
    forall i: nat | i + 1 < |b| && Quiet(b[..i]) && b[i] == HEADER_LOW ensures i == n {
      FirstHeaderIs(b, i);
    }
  }

  /** A low header byte in the noise is enough: the waiting client is left with no read out. */
  lemma FalseStartStalls(c: Crc, space: nat)
    requires space >= 7
    ensures
      var t := Run(c, space, Receiver([], false, false, []), [Ask, Arrive([HEADER_LOW, 0])]);
      t.asking && !t.reading && t.delivered == []
  {
    var s := Receiver([], false, false, []);
    var events := [Ask, Arrive([HEADER_LOW, 0])];
    assert events[1..] == [Arrive([HEADER_LOW, 0])] && events[1..][1..] == [];
    var s1 := Step(c, space, s, Ask);
    assert s1 == Receiver([], true, true, []);
    var b := s1.buffer + [HEADER_LOW, 0];
    assert b == [HEADER_LOW, 0];
    FirstHeaderIs(b, 0);
    assert Run(c, space, s1, events[1..]) == Step(c, space, s1, events[1]);
  }

  /** A read gets an empty span exactly when the buffer is full of one frame whose size is not complete yet, or passed
      the size checks but does not fit. */
  lemma EmptySpanIff(c: Crc, space: nat, b: seq<byte>)
    requires space >= 7 && |b| <= space
    ensures
      var a := TryEmit(c, space, b);
      !a.done && |a.left| == space <==>
        && |b| == space && b[0] == HEADER_LOW && b[1] == HEADER_HIGH
        && (Decode32(b[4..]).Got? ==>
              var size, head := Decode32(b[4..]).value, |b| - |Decode32(b[4..]).rest|;
              size <= 4096 && size <= space - 7 && head + size + 2 > space)
    ensures space >= 9 && |b| == space ==> Decode32(b[4..]).Got?
  {
    var n := FirstHeader(b);
    if |b| == space {
      if space >= 9 {
        LongEnough(b[4..]);
      }
      if b[0] == HEADER_LOW {
        FirstHeaderIs(b, 0);
        assert b[0..] == b;
      }
    }
  }

  lemma LongEnough(b: seq<byte>)
    requires |b| >= 5
    ensures Decode32(b).Got?
  {
    if !Raw(b).Got? {
      RawShort(b, 0);
      forall k: nat | k < 5 ensures b[k] >= 128 {
        RawShort(b, k);
      }
    }
  }

  lemma {:induction false} RawShort(b: seq<byte>, k: nat)
    requires Raw(b).Short? && k < |b|
    ensures b[k] >= 128
  {
    if k > 0 {
      RawShort(b[1..], k - 1);
    }
  }

  /** The largest payload that passes the size check never gets through once its size takes two bytes: with the first
      `space` bytes of its frame buffered there is no room left to read the last one into. */
  lemma LargestPayloadNeverFits(c: Crc, space: nat, p: Packet)
    requires 135 <= space && |p.payload| == space - 7 <= 4096
    ensures |Encoded(c, p)| == space + 1
    ensures TryEmit(c, space, Encoded(c, p)[..space]) == Attempt(false, Encoded(c, p)[..space], None)
  {
    var e := Encoded(c, p);
    EncodedIsFrame(c, p);
    SizeBound(|p.payload|, 1);
    SizeBound(|p.payload|, 2);
    assert Pow128(1) == 128 && Pow128(2) == 128 * 128;
    assert e[..space] + e[space..] == e + [];
    PartIsKept(c, space, e, p, e[..space], e[space..], []);
    FirstHeaderIs(e[..space], 0);
    assert e[..space][0..] == e[..space];
  }

  // ----- the class

  /** A delivery: the header, how much of the payload fit into the client's span, and whether some did not. */
  datatype Delivery = Delivery(source: byte, dest: byte, size: nat, data: seq<byte>, payloadTruncated: bool)

  /** What a client with room for `span` bytes is told of a packet: its addresses and its whole size, as much of its
      payload as there is room for, and whether that is not all. */
  ghost predicate HandsOver(d: Delivery, p: Packet, span: nat) {
    && d.source == p.source && d.dest == p.dest && d.size == |p.payload|
    && d.data <= p.payload && |d.data| == Min(|p.payload|, span) && (d.payloadTruncated <==> |p.payload| > span)
  }

  /** What a call leads to: the callback, a read into the given room, or nothing at all. */
  datatype Reaction = Deliver(delivery: Delivery) | ReadInto(room: nat) | Nothing

  class Datagram {
    const crc: Crc
    const bufferSize: nat
    const readBuffer: array<byte>
    const writeBuffer: array<byte>
    var readStart: nat
    var currentReadData: Option<nat>
    var reading: bool
    var checksumMismatch: nat
    ghost var delivered: seq<Packet>

    ghost predicate Valid()
      reads this
    {
      && readBuffer.Length == writeBuffer.Length == bufferSize >= 7
      && readBuffer != writeBuffer && readStart <= bufferSize
    }

    ghost function State(): (s: Receiver)
      reads this, readBuffer
      requires Valid()
    {
      Receiver(readBuffer[..readStart], currentReadData.Some?, reading, delivered)
    }

    constructor (crc: Crc, bufferSize: nat)
      requires bufferSize >= 7
      ensures Valid() && fresh(readBuffer) && fresh(writeBuffer) && this.crc == crc && this.bufferSize == bufferSize
      ensures State() == Receiver([], false, false, [])
    {
      this.crc := crc;
      this.bufferSize := bufferSize;
      readBuffer := new byte[bufferSize];
      writeBuffer := new byte[bufferSize];
      readStart := 0;
      currentReadData := None;
      reading := false;
      checksumMismatch := 0;
      delivered := [];
    }

    method Consume(size: nat)
      requires Valid() && size <= readStart
      modifies this`readStart, readBuffer
      ensures Valid() && readBuffer[..readStart] == old(readBuffer[..readStart])[size..]
    {
      if size == 0 {
        return;
      }
      forall i | 0 <= i < readStart - size {
        readBuffer[i] := readBuffer[size + i];
      }
      readStart := readStart - size;
    }

    /** The first low header byte: memchr by hand. */
    method Found() returns (found: nat)
      requires Valid()
      ensures found == FirstHeader(readBuffer[..readStart])
    {
      found := 0;
      while found < readStart
        invariant found <= readStart && Quiet(readBuffer[..found])
      {
        if readBuffer[found] == HEADER_LOW {
          break;
        }
        found := found + 1;
      }
      assert readBuffer[..readStart][..found] == readBuffer[..found];
      FirstHeaderIs(readBuffer[..readStart], found);
    }

    method TryEmitOneFrame() returns (done: bool, d: Option<Delivery>)
      requires Valid() && currentReadData.Some?
      modifies this`readStart, this`checksumMismatch, this`currentReadData, this`delivered, readBuffer
      ensures Valid()
      ensures Attempts(TryEmit(crc, bufferSize, old(readBuffer[..readStart])), done, d, old(currentReadData.value), old(delivered))
    {
      d := None;
      var found := Found();
      if found == readStart {
        readStart := 0;
        return false, None;
      }
      Consume(found);
      ghost var b := readBuffer[..readStart];
      if readStart < 2 {
        return false, None;
      }
      if readBuffer[1] != HEADER_HIGH {
        Consume(2);
        return true, None;
      }
      assert b[0] == HEADER_LOW;
      done, d := EmitAtHeader();
    }

    /** The size field, once enough is buffered to read it, and where it ends. */
    method ReadHead() returns (size: Option<nat>, payloadStart: nat)
      requires Valid() && readStart >= 7
      ensures
        match Decode32(readBuffer[4..readStart])
        case Got(v, rest) => size == Some(v) && payloadStart == readStart - |rest| && rest == readBuffer[payloadStart..readStart]
        case _ => size == None
    {
      var data := new BufferReadStream(readBuffer[2..readStart]);
      var maybeSourceId := data.FastReadScalar(1);
      var maybeDestId := data.FastReadScalar(1);
      assert data.Rest() == readBuffer[4..readStart];
      size := FastReadVaruint32(data);
      payloadStart := 2 + data.offset;
      assert size.Some? ==> data.Rest() == readBuffer[payloadStart..readStart];
    }

    /** Whether the two bytes behind the first `crcLocation` are their checksum. */
    method ChecksumMatches(crcLocation: nat) returns (r: bool)
      requires Valid() && crcLocation + 2 <= readStart
      ensures r <==> FromLE(readBuffer[crcLocation..crcLocation + 2]) == Checksum(crc, readBuffer[..crcLocation])
    {
      var sum := ProcessBytes(crc, crc.initial, readBuffer[..crcLocation]);
      r := sum % 65536 == FromLE(readBuffer[crcLocation..crcLocation + 2]);
    }

    method EmitAtHeader() returns (done: bool, d: Option<Delivery>)
      requires Valid() && currentReadData.Some? && readStart >= 2
      requires readBuffer[0] == HEADER_LOW && readBuffer[1] == HEADER_HIGH
      modifies this`readStart, this`checksumMismatch, this`currentReadData, this`delivered, readBuffer
      ensures Valid()
      ensures Attempts(AtHeader(crc, bufferSize, old(readBuffer[..readStart])), done, d, old(currentReadData.value), old(delivered))
    {
      ghost var b := readBuffer[..readStart];
      if readStart < 7 {
        return false, None;
      }
      var maybeSize, payloadStart := ReadHead();
      assert readBuffer[4..readStart] == b[4..];
      if maybeSize == None {
        return false, None;
      }
      assert readBuffer[payloadStart..readStart] == b[payloadStart..];
      AtHeaderAt(crc, bufferSize, b, maybeSize.value, payloadStart);
      var payloadSize := maybeSize.value;
      if payloadSize > 4096 || payloadSize > bufferSize - 7 {
        readStart := 0;
        return false, None;
      }
      if readStart - payloadStart < payloadSize + 2 {
        return false, None;
      }
      done, d := Verify(payloadStart, payloadSize);
    }

    /** A whole frame by its sizes: delivered if its checksum is right, else its header is skipped. */
    method Verify(payloadStart: nat, payloadSize: nat) returns (done: bool, d: Option<Delivery>)
      requires Valid() && currentReadData.Some? && 4 <= payloadStart && payloadStart + payloadSize + 2 <= readStart
      modifies this`readStart, this`checksumMismatch, this`currentReadData, this`delivered, readBuffer
      ensures Valid()
      ensures
        var b, at := old(readBuffer[..readStart]), payloadStart + payloadSize;
        Attempts(if FromLE(b[at..at + 2]) != Checksum(crc, b[..at]) then Attempt(false, b[2..], None)
                 else Attempt(true, b[at + 2..], Some(Packet(b[2], b[3], b[payloadStart..at]))),
                 done, d, old(currentReadData.value), old(delivered))
    {
      ghost var b := readBuffer[..readStart];
      var crcLocation := payloadStart + payloadSize;
      assert b[crcLocation..crcLocation + 2] == readBuffer[crcLocation..crcLocation + 2];
      assert b[..crcLocation] == readBuffer[..crcLocation];
      var matches := ChecksumMatches(crcLocation);
      if !matches {
        checksumMismatch := Wrap32(checksumMismatch + 1);
        Consume(2);
        return false, None;
      }
      var delivery := Emit(payloadStart, payloadSize);
      return true, Some(delivery);
    }

    /** Copies out as much of the payload as the client has room for, and forgets the frame and the request. */
    method Emit(payloadStart: nat, payloadSize: nat) returns (d: Delivery)
      requires Valid() && currentReadData.Some? && 4 <= payloadStart && payloadStart + payloadSize + 2 <= readStart
      modifies this`readStart, this`currentReadData, this`delivered, readBuffer
      ensures Valid() && currentReadData == None
      ensures
        var b := old(readBuffer[..readStart]);
        var p := Packet(b[2], b[3], b[payloadStart..payloadStart + payloadSize]);
        && HandsOver(d, p, old(currentReadData.value)) && delivered == old(delivered) + [p]
        && readBuffer[..readStart] == b[payloadStart + payloadSize + 2..]
    {
      ghost var b := readBuffer[..readStart];
      ghost var p := Packet(b[2], b[3], b[payloadStart..payloadStart + payloadSize]);
      var sizeToWrite := Min(payloadSize, currentReadData.value);
      var payload := readBuffer[payloadStart..payloadStart + sizeToWrite];
      SliceOfSlice(b, payloadStart, payloadSize, 0, sizeToWrite);
      assert payload == b[payloadStart..payloadStart + sizeToWrite];
      d := Delivery(readBuffer[2], readBuffer[3], payloadSize, payload, payloadSize > sizeToWrite);
      Consume(payloadStart + payloadSize + 2);
      currentReadData := None;
      delivered := delivered + [p];
    }

    /** The attempt came out as `a`. */
    ghost predicate Attempts(a: Attempt, done: bool, d: Option<Delivery>, span: nat, before: seq<Packet>)
      reads this, readBuffer
      requires Valid()
    {
      && done == a.done && readBuffer[..readStart] == a.left
      && match a.packet
         case Some(p) => d.Some? && HandsOver(d.value, p, span) && currentReadData == None && delivered == before + [p]
         case None => d == None && currentReadData == Some(span) && delivered == before
    }

    /** A frame is asked for; a read is started when none is complete. */
    method AsyncRead(span: nat) returns (r: Reaction)
      requires Valid() && currentReadData == None
      modifies this, readBuffer
      ensures Valid() && State() == Step(crc, bufferSize, old(State()), Ask)
      ensures Reacted(r, span, old(delivered))
    {
      assert readBuffer[..readStart] + [] == readBuffer[..readStart];
      currentReadData := Some(span);
      var done, d := TryEmitOneFrame();
      r := StartReadFrame(done, d);
    }

    /** What is read lands behind what is buffered. */
    method HandleReadFrame(chunk: seq<byte>) returns (r: Reaction)
      requires Valid() && currentReadData.Some? && reading && readStart + |chunk| <= bufferSize
      modifies this, readBuffer
      ensures Valid() && State() == Step(crc, bufferSize, old(State()), Arrive(chunk))
      ensures Reacted(r, old(currentReadData.value), old(delivered))
    {
      Receive(chunk);
      var done, d := TryEmitOneFrame();
      r := StartReadFrame(done, d);
    }

    /** The underlying stream filled part of the span it was given. */
    method Receive(chunk: seq<byte>)
      requires Valid() && readStart + |chunk| <= bufferSize
      modifies this`readStart, readBuffer
      ensures Valid() && readBuffer[..readStart] == old(readBuffer[..readStart]) + chunk
    {
      forall i | 0 <= i < |chunk| {
        readBuffer[readStart + i] := chunk[i];
      }
      assert readBuffer[..readStart + |chunk|] == old(readBuffer[..readStart]) + chunk;
      readStart := readStart + |chunk|;
    }

    method StartReadFrame(done: bool, d: Option<Delivery>) returns (r: Reaction)
      requires Valid() && (d.Some? ==> done)
      modifies this`reading
      ensures reading == !done
      ensures r == if d.Some? then Deliver(d.value) else if done then Nothing else ReadInto(bufferSize - readStart)
    {
      reading := !done;
      r := if d.Some? then Deliver(d.value) else if done then Nothing else ReadInto(bufferSize - readStart);
    }

    /** The reaction says what the new state is about. */
    ghost predicate Reacted(r: Reaction, span: nat, before: seq<Packet>)
      reads this
    {
      match r
      case Deliver(d) => |delivered| == |before| + 1 && HandsOver(d, delivered[|before|], span)
      case ReadInto(room) => delivered == before && currentReadData == Some(span) && reading && room == bufferSize - readStart
      case Nothing => delivered == before && currentReadData == Some(span) && !reading
    }

    /** A failed read throws the buffer away and answers the client with the error. */
    method HandleReadError()
      requires Valid() && reading
      modifies this`readStart, this`reading, this`currentReadData
      ensures Valid() && State() == Step(crc, bufferSize, old(State()), Fail)
    {
      readStart := 0;
      reading := false;
      currentReadData := None;
    }

    method WriteHeader(source: byte, dest: byte, size: nat)
      requires Valid() && size < TWO32 && 4 + |Encode(size)| <= bufferSize
      modifies writeBuffer
      ensures
        var headerSize := 4 + |Encode(size)|;
        && writeBuffer[..headerSize] == [HEADER_LOW, HEADER_HIGH, source, dest] + Encode(size)
        && writeBuffer[headerSize..] == old(writeBuffer[headerSize..])
    {
      var header := new BufferWriteStream(writeBuffer);
      header.Write([HEADER_LOW, HEADER_HIGH, source, dest]);
      assert writeBuffer[4 + |Encode(size)|..] == writeBuffer[4..][|Encode(size)|..];
      assert old(writeBuffer[4 + |Encode(size)|..]) == old(writeBuffer[4..])[|Encode(size)|..];
      FastWriteVaruint(header, size);
    }

    /** The frame is put together in place: payload first, then the header before it and the checksum behind. */
    method AsyncWrite(source: byte, dest: byte, data: seq<byte>) returns (r: Option<seq<byte>>)
      requires Valid() && |data| < TWO32
      modifies writeBuffer
      ensures r == if 6 + |Encode(|data|)| + |data| < bufferSize then Some(Encoded(crc, Packet(source, dest, data))) else None
    {
      ghost var p := Packet(source, dest, data);
      var varuintSize := GetVaruintSize32(|data|);
      var headerSize := 2 + 1 + 1 + varuintSize;
      if headerSize + 2 + |data| >= bufferSize {
        return None;
      }
      forall i | 0 <= i < |data| {
        writeBuffer[headerSize + i] := data[i];
      }
      assert writeBuffer[headerSize..headerSize + |data|] == data;
      WriteHeader(source, dest, |data|);
      assert writeBuffer[headerSize..][..|data|] == writeBuffer[headerSize..headerSize + |data|];
      var crcLocation := headerSize + |data|;
      assert Wrap32(|data|) == |data|;
      ghost var head := [HEADER_LOW, HEADER_HIGH, source, dest] + Encode(|data|);
      assert writeBuffer[..crcLocation] == writeBuffer[..headerSize] + writeBuffer[headerSize..crcLocation];
      assert writeBuffer[..headerSize] == head && writeBuffer[headerSize..crcLocation] == data;
      assert Body(p) == head + data;
      WriteChecksum(crcLocation);
      r := Some(writeBuffer[..crcLocation + 2]);
    }

    method WriteChecksum(crcLocation: nat)
      requires Valid() && crcLocation + 2 <= bufferSize
      modifies writeBuffer
      ensures
        var b := old(writeBuffer[..crcLocation]);
        writeBuffer[..crcLocation + 2] == b + LE(Checksum(crc, b), 2)
    {
      var sum := ProcessBytes(crc, crc.initial, writeBuffer[..crcLocation]);
      var crcStream := new BufferWriteStream.At(writeBuffer, crcLocation);
      crcStream.Write(LE(sum % 65536, 2));
    }
  }
}
