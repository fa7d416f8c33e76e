/** The client's receiver: a growing buffer, searched again after every read while a caller waits for a frame. */
module Rs485FrameStream {
  import opened Bytes
  import opened Streams
  import opened Varuint
  import opened Framing

  /** At a possible header: more is needed; it is none; it is a frame, after which `left` remains; or an added 2 wrapped
      a declared size around and a checksum is taken from a read that failed. */
  datatype Verdict = Wait | Skip | Accept(packet: Packet, left: seq<byte>) | Break

  function Look(c: Crc, d: seq<byte>): (v: Verdict)
    ensures v.Skip? ==> |d| >= 2
    ensures v.Accept? ==> |v.left| + 7 <= |d|
  {
    if |d| < 2 then Wait
    else if d[1] != HEADER_HIGH then Skip
    else if |d| < 4 then Wait
    else
      match Decode32(d[4..])
      case Got(size, rest) =>
        if |rest| < Wrap32(size + 2) then Wait
        else if |rest| < size + 2 then Break
        else if FromLE(rest[size..size + 2]) != Checksum(c, d[..|d| - |rest| + size]) then Skip
        else Accept(Packet(d[2], d[3], rest[..size]), rest[size + 2..])
      case _ => Wait
  }

  datatype Parsed = Waiting(left: seq<byte>) | Delivered(frame: Frame, left: seq<byte>) | Undefined

  /** A search of the buffered bytes: up to a low header byte, and past two bytes whenever that was no frame. */
  function Parse(c: Crc, b: seq<byte>): (r: Parsed)
    ensures r.Waiting? ==> |r.left| <= |b|
    ensures r.Delivered? ==> |r.left| + 7 <= |b|
    decreases |b|
  {
    var d := b[FirstHeader(b)..];
    match Look(c, d)
    case Wait => Waiting(d)
    case Skip => Parse(c, d[2..])
    case Accept(p, left) => Delivered(FrameOf(p), left)
    case Break => Undefined
  }

  // ----- sound: what is delivered was a frame

  /** The delivered frame comes from bytes that fit the grammar, with the checksum they carry; everything before them
      was discarded and nothing of them is left. */
  lemma {:induction false} DeliveredIsFrame(c: Crc, b: seq<byte>)
    returns (discarded: seq<byte>, frame: seq<byte>, p: Packet)
    requires Parse(c, b).Delivered?
    ensures b == discarded + frame + Parse(c, b).left
    ensures IsFrame(c, frame, p) && Parse(c, b).frame == FrameOf(p)
    decreases |b|
  {
    var i := FirstHeader(b);
    var d := b[i..];
    if Look(c, d).Skip? {
      var before;
      before, frame, p := DeliveredIsFrame(c, d[2..]);
      discarded := b[..i + 2] + before;
      assert d[2..] == b[i + 2..];
      Prefixed(b, i + 2, before, frame, Parse(c, b).left);
    } else {
      p := Look(c, d).packet;
      var n := AcceptedIsFrame(c, d);
      discarded, frame := b[..i], d[..n];
      Joined(b, i, n);
    }
  }

  lemma AcceptedIsFrame(c: Crc, d: seq<byte>) returns (n: nat)
    requires d != [] && d[0] == HEADER_LOW && Look(c, d).Accept?
    ensures n <= |d| && IsFrame(c, d[..n], Look(c, d).packet) && Look(c, d).left == d[n..]
  {
    var size, rest := Decode32(d[4..]).value, Decode32(d[4..]).rest;
    var head := |d| - |rest|;
    n := head + size + 2;
    SizeInside(d, n);
    SliceOfSuffix(d, head, size, size + 2);
    SliceOfSuffix(d, head, 0, size);
    CutAt(d, n, head, size);
    CheckedIsFrame(c, d[..n], size, head);
  }

  // ----- the exact danger of the added 2

  /** The undefined outcome is that of a header whose size wraps: four header bytes, a size of at least 2^32 - 2, and
      fewer bytes behind it than that size and a checksum take. */
  lemma BreaksIffSizeWraps(c: Crc, d: seq<byte>)
    requires d != []
    ensures Look(c, d).Break? <==>
              && |d| >= 4 && d[1] == HEADER_HIGH && Decode32(d[4..]).Got?
              && Decode32(d[4..]).value >= TWO32 - 2
              && Decode32(d[4..]).value - (TWO32 - 2) <= |Decode32(d[4..]).rest| < Decode32(d[4..]).value + 2
  {
    if |d| >= 4 && Decode32(d[4..]).Got? {
      WrapPlusTwo(Decode32(d[4..]).value);
    }
  }

  lemma WrapPlusTwo(size: nat)
    requires size < TWO32
    ensures Wrap32(size + 2) == if size < TWO32 - 2 then size + 2 else size - (TWO32 - 2)
  {
  }

  /** A size field one byte too long reads as the largest number, and is enough. */
  lemma OverlongSizeBreaks(c: Crc)
    ensures Parse(c, [HEADER_LOW, HEADER_HIGH, 1, 2, 255, 255, 255, 255, 255, 0]) == Undefined
  {
    var b: seq<byte> := [HEADER_LOW, HEADER_HIGH, 1, 2, 255, 255, 255, 255, 255, 0];
    FirstHeaderIs(b, 0);
    assert b[0..] == b;
    assert b[4..] == [255, 255, 255, 255, 255, 0];
    assert TooLong(b[4..]);
    WrapPlusTwo(TWO32 - 1);
  }

  // ----- complete: every frame of a clear line is delivered

  lemma FrameIsAccepted(c: Crc, frame: seq<byte>, p: Packet, d: seq<byte>)
    requires IsFrame(c, frame, p) && |p.payload| < TWO32 - 2
    requires |frame| <= |d| && d[..|frame|] == frame
    ensures Look(c, d) == Accept(p, d[|frame|..])
  {
    assert d + [] == frame + d[|frame|..];
    SeenOfFrame(c, frame, p, d, [], d[|frame|..]);
    PartsOfFrame(c, frame, p, d);
    var h, size := HeadSize(frame, p), |p.payload|;
    SliceOfSuffix(d, h, size, size + 2);
    SliceOfSuffix(d, h, 0, size);
  }

  lemma PartWaits(c: Crc, frame: seq<byte>, p: Packet, d: seq<byte>, rest: seq<byte>, after: seq<byte>)
    requires IsFrame(c, frame, p) && |p.payload| < TWO32 - 2
    requires d + rest == frame + after && |d| < |frame|
    ensures Look(c, d) == Wait
  {
    SeenOfFrame(c, frame, p, d, rest, after);
  }

  /** A search of part of a clear line: its next frame, or everything from the first unfinished one is kept. */
  lemma Searched(c: Crc, line: Line, longest: nat, b: seq<byte>, rest: seq<byte>) returns (next: Line)
    requires Clear(c, line, longest, TWO32 - 3) && b + rest == BytesOf(line)
    ensures Clear(c, next, longest, TWO32 - 3)
    ensures
      match Parse(c, b)
      case Waiting(left) => left + rest == BytesOf(next) && FramesOf(line) == FramesOf(next) && (rest == [] ==> next.items == [])
      case Delivered(f, left) => left + rest == BytesOf(next) && FramesOf(line) == [f] + FramesOf(next)
      case Undefined => false
  {
    var n := NoiseFirst(c, line, b, rest, longest, TWO32 - 3);
    var d := b[n..];
    next := Quieter(line, n);
    SameFrames(line, next);
    if n == |b| {
      if line.items != [] {
        assert ClearItem(c, line.items[0], longest, TWO32 - 3);
        LineIsLong(line);
      }
      return;
    }
    var first := line.items[0];
    assert ClearItem(c, first, longest, TWO32 - 3);
    if |d| < |first.frame| {
      PartWaits(c, first.frame, first.packet, d, rest, BytesOf(Later(line)));
      assert |d| + |rest| == |first.frame| + |BytesOf(Later(line))|;
    } else {
      SeenOfFrame(c, first.frame, first.packet, d, rest, BytesOf(Later(line)));
      FrameIsAccepted(c, first.frame, first.packet, d);
      next := Later(line);
    }
  }

  function FramesOf(line: Line): seq<Frame>
    decreases |line.items|
  {
    if line.items == [] then [] else [FrameOf(line.items[0].packet)] + FramesOf(Later(line))
  }

  lemma SameFrames(line: Line, next: Line)
    requires |line.items| == |next.items| && (line.items != [] ==> line.items[0].packet == next.items[0].packet)
    requires line.items != [] ==> line.items[1..] == next.items[1..]
    ensures FramesOf(line) == FramesOf(next)
    decreases |line.items|
  {
    if line.items != [] {
      SameFrames(Later(line), Later(next));
    }
  }

  /** Searching again what a search left changes nothing. */
  lemma {:induction false} SearchIsIdempotent(c: Crc, b: seq<byte>)
    requires Parse(c, b).Waiting?
    ensures Parse(c, Parse(c, b).left) == Parse(c, b)
    decreases |b|
  {
    var i := FirstHeader(b);
    var d := b[i..];
    if Look(c, d).Skip? {
      SearchIsIdempotent(c, d[2..]);
    } else {
      FirstHeaderIs(d, 0);
      assert d[0..] == d;
    }
  }

  // ----- the receiver as a state machine

  /** `asking` while a caller waits, `outstanding` while a read of the underlying stream is out. */
  datatype Client = Client(buffer: seq<byte>, asking: bool, outstanding: bool, delivered: seq<Frame>)

  /** A caller asks; a read comes back with some bytes; the caller gives up or its timer fires. */
  datatype Event = Ask | Arrive(chunk: seq<byte>) | Cancel

  predicate Allowed(s: Client, e: Event) {
    match e
    case Ask => !s.asking
    case Arrive(_) => s.outstanding
    case Cancel => true
  }

  /** ParseFrame. */
  function Search(c: Crc, s: Client): Option<Client> {
    match Parse(c, s.buffer)
    case Waiting(left) => Some(s.(buffer := left))
    case Delivered(f, left) => Some(s.(buffer := left, asking := false, delivered := s.delivered + [f]))
    case Undefined => None
  }

  /** MaybeStartRead. */
  function StartRead(c: Crc, s: Client): Option<Client> {
    if s.outstanding || !s.asking then Some(s)
    else
      match Search(c, s)
      case None => None
      case Some(t) => Some(t.(outstanding := t.asking))
  }

  function Step(c: Crc, s: Client, e: Event): Option<Client> {
    match e
    case Ask => StartRead(c, s.(asking := true))
    case Arrive(chunk) =>
      var t := s.(buffer := s.buffer + chunk, outstanding := false);
      if !t.asking then Some(t)
      else (match Search(c, t) case None => None case Some(u) => StartRead(c, u))
    case Cancel => Some(s.(asking := false))
  }

  function Run(c: Crc, s: Client, events: seq<Event>): Option<Client>
    decreases |events|
  {
    if events == [] then Some(s)
    else
      match Step(c, s, events[0])
      case None => None
      case Some(t) => Run(c, t, events[1..])
  }

  predicate AllAllowed(c: Crc, s: Client, events: seq<Event>)
    decreases |events|
  {
    events != [] ==>
      Allowed(s, events[0]) &&
      (match Step(c, s, events[0]) case None => true case Some(t) => AllAllowed(c, t, events[1..]))
  }

  function ChunkOf(e: Event): seq<byte> {
    if e.Arrive? then e.chunk else []
  }

  function Arrived(events: seq<Event>): seq<byte> {
    if events == [] then [] else ChunkOf(events[0]) + Arrived(events[1..])
  }

  ghost predicate InStep(c: Crc, longest: nat, s: Client, rest: seq<byte>, todo: Line, all: seq<Frame>) {
    && Clear(c, todo, longest, TWO32 - 3)
    && s.buffer + rest == BytesOf(todo)
    && s.delivered + FramesOf(todo) == all
    && (s.asking ==> s.outstanding)
    && (s.outstanding ==> (rest == [] ==> todo.items == []))
  }

  /** A search, when a caller waits and no read is out, then a new read if it did not help. */
  lemma SearchKeepsInStep(c: Crc, longest: nat, s: Client, rest: seq<byte>, todo: Line, all: seq<Frame>)
    returns (next: Line)
    requires Clear(c, todo, longest, TWO32 - 3) && s.buffer + rest == BytesOf(todo)
    requires s.delivered + FramesOf(todo) == all && s.asking && !s.outstanding
    ensures Search(c, s).Some? && StartRead(c, s).Some? && InStep(c, longest, StartRead(c, s).value, rest, next, all)
    ensures StartRead(c, Search(c, s).value) == StartRead(c, s)
  {
    next := Searched(c, todo, longest, s.buffer, rest);
    match Parse(c, s.buffer)
    case Waiting(left) =>
      SearchIsIdempotent(c, s.buffer);
    case Delivered(f, left) =>
      assert s.delivered + [f] + FramesOf(next) == s.delivered + ([f] + FramesOf(next));
    case Undefined =>
  }

  lemma StepKeepsInStep(c: Crc, longest: nat, s: Client, e: Event, coming: seq<byte>, rest: seq<byte>, todo: Line,
                        all: seq<Frame>)
    returns (t: Client, next: Line)
    requires Allowed(s, e) && coming == ChunkOf(e) + rest && InStep(c, longest, s, coming, todo, all)
    ensures Step(c, s, e) == Some(t) && InStep(c, longest, t, rest, next, all)
  {
    next := todo;
    match e
    case Ask =>
      assert coming == rest;
      if s.outstanding {
        t := s.(asking := true);
      } else {
        next := SearchKeepsInStep(c, longest, s.(asking := true), rest, todo, all);
        t := StartRead(c, s.(asking := true)).value;
      }
    case Arrive(chunk) =>
      var u := s.(buffer := s.buffer + chunk, outstanding := false);
      assert u.buffer + rest == s.buffer + coming;
      if u.asking {
        next := SearchKeepsInStep(c, longest, u, rest, todo, all);
        t := StartRead(c, u).value;
      } else {
        t := u;
      }
    case Cancel =>
      assert coming == rest;
      t := s.(asking := false);
  }

  lemma LaterBytes(events: seq<Event>, coming: seq<byte>, rest: seq<byte>, later: seq<byte>)
    requires events != [] && coming == Arrived(events) + rest && later == Arrived(events[1..]) + rest
    ensures coming == ChunkOf(events[0]) + later
  {
  }

  lemma {:induction false} RunKeepsInStep(c: Crc, longest: nat, s: Client, events: seq<Event>, coming: seq<byte>,
                                          rest: seq<byte>, todo: Line, all: seq<Frame>)
    returns (t: Client, left: Line)
    requires AllAllowed(c, s, events) && coming == Arrived(events) + rest && InStep(c, longest, s, coming, todo, all)
    ensures Run(c, s, events) == Some(t) && InStep(c, longest, t, rest, left, all)
    decreases |events|
  {
    if events == [] {
      assert coming == rest;
      t, left := s, todo;
    } else {
      var later := Arrived(events[1..]) + rest;
      LaterBytes(events, coming, rest, later);
      var s1, next := StepKeepsInStep(c, longest, s, events[0], coming, later, todo, all);
      t, left := RunKeepsInStep(c, longest, s1, events[1..], later, rest, next, all);
    }
  }

  /** However the bytes of a clear line are split, and whenever callers ask and give up, the search never reaches its
      undefined outcome; frames are handed over unchanged, once and in order; a waiting caller always has a read out;
      and when it waits with nothing more to come, every frame was handed over. */
  lemma ChunkingIsInvisible(c: Crc, longest: nat, events: seq<Event>, rest: seq<byte>, line: Line)
    requires AllAllowed(c, Client([], false, false, []), events)
    requires Clear(c, line, longest, TWO32 - 3) && Arrived(events) + rest == BytesOf(line)
    ensures
      var r := Run(c, Client([], false, false, []), events);
      && r.Some?
      && r.value.delivered <= FramesOf(line)
      && (r.value.asking ==> r.value.outstanding)
      && (r.value.asking && rest == [] ==> r.value.delivered == FramesOf(line))
  {
    var coming := Arrived(events) + rest;
    assert [] + coming == BytesOf(line);
    assert [] + FramesOf(line) == FramesOf(line);
    var t, left := RunKeepsInStep(c, longest, Client([], false, false, []), events, coming, rest, line, FramesOf(line));
    assert (t.delivered + FramesOf(left))[..|t.delivered|] == t.delivered;
  }

  /** The frames of a line written by the client library are those it encoded, when their sources are below 128. */
  lemma EncodedLineIsClear(c: Crc, frames: seq<Frame>, gaps: seq<seq<byte>>, longest: nat) returns (line: Line)
    requires |gaps| == |frames|
    requires forall i :: 0 <= i < |frames| ==>
               && Quiet(gaps[i]) && frames[i].source < 128 && |frames[i].payload| < TWO32 - 2
               && |Encoded(c, PacketOf(frames[i]))| <= longest
    ensures Clear(c, line, longest, TWO32 - 3) && FramesOf(line) == frames && line.tail == []
    ensures BytesOf(line) == Written(c, frames, gaps)
  {
    if frames == [] {
      line := Line([], []);
    } else {
      var later := EncodedLineIsClear(c, frames[1..], gaps[1..], longest);
      var p := PacketOf(frames[0]);
      EncodedIsFrame(c, p);
      var first := Item(gaps[0], Encoded(c, p), p);
      assert ClearItem(c, first, longest, TWO32 - 3);
      line := Line([first] + later.items, []);
      assert line.items[1..] == later.items && Later(line) == later;
      FrameSurvivesIff(frames[0]);
    }
  }

  function Written(c: Crc, frames: seq<Frame>, gaps: seq<seq<byte>>): seq<byte>
    requires |gaps| == |frames|
  {
    if frames == [] then [] else gaps[0] + Encoded(c, PacketOf(frames[0])) + Written(c, frames[1..], gaps[1..])
  }

  // ----- the class

  class FrameStream {
    const crc: Crc
    var streambuf: seq<byte>
    var readOutstanding: bool
    var currentCallback: bool
    var currentFrame: Frame
    ghost var delivered: seq<Frame>

    ghost function State(): Client
      reads this
    {
      Client(streambuf, currentCallback, readOutstanding, delivered)
    }

    constructor (crc: Crc)
      ensures this.crc == crc && State() == Client([], false, false, [])
    {
      this.crc := crc;
      streambuf := [];
      readOutstanding := false;
      currentCallback := false;
      currentFrame := Frame(0, false, 0, []);
      delivered := [];
    }

    method DiscardUntil()
      modifies this`streambuf
      ensures streambuf == old(streambuf)[FirstHeader(old(streambuf))..]
    {
      var it := 0;
      while it < |streambuf| && streambuf[it] != HEADER_LOW
        invariant it <= |streambuf| && Quiet(streambuf[..it])
      {
        it := it + 1;
      }
      FirstHeaderIs(streambuf, it);
      streambuf := streambuf[it..];
    }

    /** Reads what is buffered, from a possible header on, into the current frame; nothing is consumed yet. */
    method ReadOne() returns (v: Verdict)
      requires streambuf != [] ==> streambuf[0] == HEADER_LOW
      modifies this`currentFrame
      ensures v == Look(crc, streambuf)
      ensures v.Accept? ==> currentFrame == FrameOf(v.packet)
    {
      ghost var d := streambuf;
      var stream := new BufferReadStream(streambuf);
      var reader := new CrcReadStream(stream, crc);
      var maybeHeader := reader.ReadScalar(2);
      if maybeHeader == None {
        return Wait;
      }
      HeaderValue(d);
      if maybeHeader.value != 0xab54 {
        return Skip;
      }
      v := ReadBody(reader);
    }

    /** Past the two header bytes: the addresses and the size. */
    method ReadBody(reader: CrcReadStream) returns (v: Verdict)
      requires reader.Valid() && reader.crc == crc && reader.base.buffer == streambuf && reader.base.offset == 2
      requires |streambuf| >= 2 && streambuf[0] == HEADER_LOW && streambuf[1] == HEADER_HIGH
      modifies this`currentFrame, reader, reader.base
      ensures v == Look(crc, streambuf)
      ensures v.Accept? ==> currentFrame == FrameOf(v.packet)
    {
      ghost var d := streambuf;
      var stream := reader.base;
      var maybeSourceId := reader.ReadScalar(1);
      if maybeSourceId == None {
        return Wait;
      }
      var maybeDestId := reader.ReadScalar(1);
      if maybeDestId == None {
        return Wait;
      }
      OneByte(d, 2);
      OneByte(d, 3);
      currentFrame := currentFrame.(source := maybeSourceId.value % 128, requestReply := maybeSourceId.value >= 128,
                                    dest := maybeDestId.value);
      var maybePayloadSize := reader.ReadVaruint();
      if maybePayloadSize == None {
        return Wait;
      }
      var size := maybePayloadSize.value;
      ghost var rest := stream.Rest();
      if stream.Remaining() < Wrap32(size + 2) {
        return Wait;
      }
      var head := stream.offset;
      assert rest == d[head..];
      v := ReadPayload(reader, size, head);
    }

    method ReadPayload(reader: CrcReadStream, size: nat, head: nat) returns (v: Verdict)
      requires reader.Valid() && reader.crc == crc && reader.base.buffer == streambuf && reader.base.offset == head
      requires |streambuf| >= 4 && currentFrame == FrameOf(Packet(streambuf[2], streambuf[3], currentFrame.payload))
      modifies this`currentFrame, reader, reader.base
      ensures
        var rest := streambuf[head..];
        if |rest| < size + 2 then v == Break
        else if FromLE(rest[size..size + 2]) != Checksum(crc, streambuf[..head + size]) then v == Skip
        else v == Accept(Packet(streambuf[2], streambuf[3], rest[..size]), rest[size + 2..])
      ensures v.Accept? ==> currentFrame == FrameOf(v.packet)
    {
      ghost var rest := streambuf[head..];
      var payload := reader.Read(size);
      currentFrame := currentFrame.(payload := payload);
      var calculatedChecksum := reader.state % 65536;
      assert |payload| == size ==> streambuf[..head + size] == reader.base.buffer[..reader.base.offset];
      assert reader.base.Rest() == rest[|payload|..];
      var readChecksum := reader.ReadScalar(2);
      if readChecksum == None {
        return Break;
      }
      assert rest[size..][..2] == rest[size..size + 2];
      if calculatedChecksum != readChecksum.value {
        return Skip;
      }
      var left := streambuf[reader.base.offset..];
      v := Accept(Packet(streambuf[2], streambuf[3], payload), left);
    }

    /** Searches for a frame, discarding what does not look like one; false is the undefined outcome. */
    method ParseFrame() returns (defined: bool)
      requires currentCallback
      modifies this`streambuf, this`currentFrame, this`currentCallback, this`delivered
      ensures defined <==> Search(crc, old(State())).Some?
      ensures defined ==> State() == Search(crc, old(State())).value
      ensures defined && !currentCallback ==> delivered == old(delivered) + [currentFrame]
    {
      while true
        invariant currentCallback && delivered == old(delivered)
        invariant Parse(crc, streambuf) == Parse(crc, old(streambuf))
        decreases |streambuf|
      {
        DiscardUntil();
        var v := ReadOne();
        match v
        case Wait =>
          return true;
        case Skip =>
          streambuf := streambuf[2..];
        case Accept(p, left) =>
          streambuf := left;
          delivered := delivered + [currentFrame];
          currentCallback := false;
          return true;
        case Break =>
          return false;
      }
    }

    method MaybeStartRead() returns (defined: bool)
      modifies this`streambuf, this`currentFrame, this`currentCallback, this`delivered, this`readOutstanding
      ensures defined <==> StartRead(crc, old(State())).Some?
      ensures defined ==> State() == StartRead(crc, old(State())).value
      ensures !old(currentCallback) ==> currentFrame == old(currentFrame)
      ensures defined ==> delivered == old(delivered) || delivered == old(delivered) + [currentFrame]
    {
      defined := true;
      if readOutstanding || !currentCallback {
        return;
      }
      defined := ParseFrame();
      if !defined || !currentCallback {
        return;
      }
      readOutstanding := true;
    }

    method AsyncRead() returns (defined: bool)
      requires !currentCallback
      modifies this
      ensures defined <==> Step(crc, old(State()), Ask).Some?
      ensures defined ==> State() == Step(crc, old(State()), Ask).value
      ensures defined ==> delivered == old(delivered) || delivered == old(delivered) + [currentFrame]
    {
      currentCallback := true;
      defined := MaybeStartRead();
    }

    method HandleRead(chunk: seq<byte>) returns (defined: bool)
      requires readOutstanding
      modifies this
      ensures defined <==> Step(crc, old(State()), Arrive(chunk)).Some?
      ensures defined ==> State() == Step(crc, old(State()), Arrive(chunk)).value
      ensures defined ==> delivered == old(delivered) || delivered == old(delivered) + [currentFrame]
    {
      streambuf := streambuf + chunk;
      readOutstanding := false;
      defined := true;
      if currentCallback {
        defined := ParseFrame();
      }
      if defined {
        defined := MaybeStartRead();
      }
    }

    /** The caller gives up, or its timer fires. */
    method Abandon()
      modifies this`currentCallback
      ensures State() == Step(crc, old(State()), Cancel).value
    {
      currentCallback := false;
    }
  }

  lemma HeaderValue(d: seq<byte>)
    requires |d| >= 2 && d[0] == HEADER_LOW
    ensures FromLE(d[..2]) == 0xab54 <==> d[1] == HEADER_HIGH
  {
    assert FromLE(d[..2][1..]) == d[1];
  }

  lemma OneByte(d: seq<byte>, i: nat)
    requires i < |d|
    ensures FromLE(d[i..][..1]) == d[i]
  {
  }
}
