/** A client of the micro receiver: what it is told over a whole run. */
module DatagramClient {
  import opened Bytes
  import opened Framing
  import opened MicroStreamDatagram

  const FRESH := Receiver([], false, false, [])

  /** Asks, and lets the underlying stream answer, as the events say; the n-th frame is asked for with `room(n)` bytes
      of room.  Whatever happens, each packet taken from the line is handed over. */
  method Drive(d: Datagram, events: seq<Event>, room: nat -> nat) returns (told: seq<Delivery>)
    requires d.Valid() && d.State() == FRESH && AllAllowed(d.crc, d.bufferSize, FRESH, events)
    modifies d, d.readBuffer
    ensures d.Valid() && d.State() == Run(d.crc, d.bufferSize, FRESH, events)
    ensures ToldAll(told, d.delivered, room)
  {
    told := [];
    ghost var end := Run(d.crc, d.bufferSize, FRESH, events);
    for i := 0 to |events|
      invariant d.Valid() && Waiting(d, room(|told|))
      invariant end == Run(d.crc, d.bufferSize, d.State(), events[i..])
      invariant AllAllowed(d.crc, d.bufferSize, d.State(), events[i..])
      invariant ToldAll(told, d.delivered, room)
    {
      ghost var before := d.delivered;
      NextEvent(d.crc, d.bufferSize, d.State(), events, i);
      var r := Happen(d, events[i], room(|told|));
      if r.Some? {
        OneMoreTold(told, before, room, r.value, d.delivered);
        told := told + [r.value];
      }
    }
  }

  /** The n-th packet was handed over to room(n) bytes. */
  ghost predicate ToldAll(told: seq<Delivery>, delivered: seq<Packet>, room: nat -> nat) {
    |told| == |delivered| && forall n :: 0 <= n < |told| ==> HandsOver(told[n], delivered[n], room(n))
  }

  lemma OneMoreTold(told: seq<Delivery>, before: seq<Packet>, room: nat -> nat, d: Delivery, delivered: seq<Packet>)
    requires ToldAll(told, before, room) && before <= delivered && |delivered| == |before| + 1
    requires HandsOver(d, delivered[|before|], room(|told|))
    ensures ToldAll(told + [d], delivered, room)
  {
  }

  lemma NextEvent(c: Crc, space: nat, s: Receiver, events: seq<Event>, i: nat)
    requires space >= 7 && i < |events| && AllAllowed(c, space, s, events[i..])
    ensures Allowed(space, s, events[i]) && AllAllowed(c, space, Step(c, space, s, events[i]), events[i + 1..])
    ensures Run(c, space, s, events[i..]) == Run(c, space, Step(c, space, s, events[i]), events[i + 1..])
  {
    assert events[i..][0] == events[i] && events[i..][1..] == events[i + 1..];
  }

  /** A request that waits was made with this room; a read that is out is for a request. */
  ghost predicate Waiting(d: Datagram, span: nat)
    reads d
  {
    (d.currentReadData.Some? ==> d.currentReadData.value == span) && (d.reading ==> d.currentReadData.Some?)
  }

  method Happen(d: Datagram, e: Event, span: nat) returns (told: Option<Delivery>)
    requires d.Valid() && Waiting(d, span) && Allowed(d.bufferSize, d.State(), e)
    modifies d, d.readBuffer
    ensures d.Valid() && d.State() == Step(d.crc, d.bufferSize, old(d.State()), e)
    ensures if told.Some? then |d.delivered| == |old(d.delivered)| + 1 && old(d.delivered) <= d.delivered
                               && d.currentReadData == None && !d.reading
                               && HandsOver(told.value, d.delivered[|old(d.delivered)|], span)
            else d.delivered == old(d.delivered) && Waiting(d, span)
  {
    told := None;
    match e
    case Fail => d.HandleReadError();
    case Ask =>
      var r := d.AsyncRead(span);
      if r.Deliver? {
        told := Some(r.delivery);
      }
    case Arrive(chunk) =>
      var r := d.HandleReadFrame(chunk);
      if r.Deliver? {
        told := Some(r.delivery);
      }
  }

  lemma {:induction false} PacketsAt(items: seq<Item>, n: nat)
    requires n < |items|
    ensures PacketsOf(items)[n] == items[n].packet
  {
    if n > 0 {
      PacketsAt(items[1..], n - 1);
    }
  }

  /** However a clear line is split: the client is told of its frames in order, each with the addresses and the size it
      was sent with, the first bytes of its payload as far as the client had room, and whether that was not all; and
      once a read is out with nothing more to come, of every one of them. */
  method ReceiveLine(d: Datagram, events: seq<Event>, room: nat -> nat, ghost line: Line, ghost rest: seq<byte>)
    returns (told: seq<Delivery>)
    requires d.Valid() && d.State() == FRESH && AllAllowed(d.crc, d.bufferSize, FRESH, events) && NoneFails(events)
    requires Clear(d.crc, line, d.bufferSize, 4096) && Arrived(events) + rest == BytesOf(line)
    modifies d, d.readBuffer
    ensures |told| <= |line.items| && (d.reading && rest == [] ==> |told| == |line.items|)
    ensures
      forall n :: 0 <= n < |told| ==>
        var p := line.items[n].packet;
        && told[n].source == p.source && told[n].dest == p.dest && told[n].size == |p.payload|
        && told[n].data == p.payload[..Min(|p.payload|, room(n))]
        && (told[n].payloadTruncated <==> room(n) < |p.payload|)
  {
    told := Drive(d, events, room);
    ChunkingIsInvisible(d.crc, d.bufferSize, events, rest, line);
    forall n | 0 <= n < |told| ensures d.delivered[n] == line.items[n].packet {
      PacketsAt(line.items, n);
    }
  }
}
