/** What a false start costs: two bytes, and no good frame behind it. */
module Recovery {
  import opened Bytes
  import opened Varuint
  import opened Framing
  import Rs485FrameStream
  import MicroStreamDatagram

  /** A low header byte that starts no frame, as can be told from what is there: the other header byte is missing, or
      the checksum of all that the declared size announces is wrong. */
  ghost predicate FalseStart(c: Crc, d: seq<byte>, largest: nat) {
    && |d| >= 2 && d[0] == HEADER_LOW
    && (d[1] != HEADER_HIGH ||
        (&& |d| >= 4 && Decode32(d[4..]).Got?
         && var size, rest := Decode32(d[4..]).value, Decode32(d[4..]).rest;
            size <= largest && |rest| >= size + 2
            && FromLE(rest[size..size + 2]) != Checksum(c, d[..|d| - |rest| + size])))
  }

  /** Every low header byte among the first `n` bytes is a false start, and the last of those is no low header byte. */
  ghost predicate FalseStarts(c: Crc, b: seq<byte>, n: nat, largest: nat) {
    && n <= |b| && (n > 0 ==> b[n - 1] != HEADER_LOW)
    && forall i :: 0 <= i < n && b[i] == HEADER_LOW ==> FalseStart(c, b[i..], largest)
  }

  /** Two bytes behind the first of them it is the same again. */
  lemma FalseStartsLeft(c: Crc, b: seq<byte>, n: nat, largest: nat)
    requires FalseStarts(c, b, n, largest) && FirstHeader(b) < n
    ensures FirstHeader(b) + 2 <= n && FalseStart(c, b[FirstHeader(b)..], largest)
    ensures FalseStarts(c, b[FirstHeader(b) + 2..], n - FirstHeader(b) - 2, largest)
  {
    var k := FirstHeader(b) + 2;
    assert b[k - 2] == HEADER_LOW;
    forall i | 0 <= i < n - k && b[k..][i] == HEADER_LOW ensures FalseStart(c, b[k..][i..], largest) {
      assert b[k + i] == HEADER_LOW && b[k..][i..] == b[k + i..];
    }
  }

  // ----- the client's receiver

  lemma Rs485Skips(c: Crc, d: seq<byte>)
    requires FalseStart(c, d, TWO32 - 3)
    ensures Rs485FrameStream.Look(c, d) == Rs485FrameStream.Skip
  {
    if d[1] == HEADER_HIGH {
      Rs485FrameStream.WrapPlusTwo(Decode32(d[4..]).value);
    }
  }

  lemma Rs485Delivers(c: Crc, b: seq<byte>, n: nat, frame: seq<byte>, p: Packet, tail: seq<byte>)
    requires n == FirstHeader(b) && IsFrame(c, frame, p) && |p.payload| < TWO32 - 2
    requires b[n..] == tail && frame <= tail
    ensures Rs485FrameStream.Parse(c, b) == Rs485FrameStream.Delivered(FrameOf(p), tail[|frame|..])
  {
    Rs485FrameStream.FrameIsAccepted(c, frame, p, tail);
  }

  lemma Rs485Step(c: Crc, b: seq<byte>, i: nat)
    requires i == FirstHeader(b) && i + 2 <= |b| && Rs485FrameStream.Look(c, b[i..]) == Rs485FrameStream.Skip
    ensures Rs485FrameStream.Parse(c, b) == Rs485FrameStream.Parse(c, b[i + 2..])
  {
    DropTwice(b, i, 2);
  }

  lemma Rs485One(c: Crc, b: seq<byte>, n: nat, tail: seq<byte>) returns (rest: seq<byte>, n1: nat)
    requires FalseStarts(c, b, n, TWO32 - 3) && FirstHeader(b) < n && b[n..] == tail
    ensures n1 + 2 <= n && FalseStarts(c, rest, n1, TWO32 - 3) && rest[n1..] == tail
    ensures Rs485FrameStream.Parse(c, b) == Rs485FrameStream.Parse(c, rest)
  {
    var i := FirstHeader(b);
    rest, n1 := b[i + 2..], n - i - 2;
    FalseStartsLeft(c, b, n, TWO32 - 3);
    Rs485Skips(c, b[i..]);
    Rs485Step(c, b, i);
    DropTwice(b, i + 2, n1);
  }

  /** One search finds a good frame behind any number of false starts. */
  lemma {:induction false} Rs485Recovers(c: Crc, b: seq<byte>, n: nat, frame: seq<byte>, p: Packet, tail: seq<byte>)
    requires FalseStarts(c, b, n, TWO32 - 3) && IsFrame(c, frame, p) && |p.payload| < TWO32 - 2
    requires b[n..] == tail && frame <= tail
    ensures Rs485FrameStream.Parse(c, b) == Rs485FrameStream.Delivered(FrameOf(p), tail[|frame|..])
    decreases n
  {
    HeaderBefore(c, b, n, frame, p);
    if FirstHeader(b) < n {
      var rest, n1 := Rs485One(c, b, n, tail);
      Rs485Recovers(c, rest, n1, frame, p, tail);
    } else {
      Rs485Delivers(c, b, n, frame, p, tail);
    }
  }

  lemma HeaderBefore(c: Crc, b: seq<byte>, n: nat, frame: seq<byte>, p: Packet)
    requires IsFrame(c, frame, p) && n <= |b| && frame <= b[n..]
    ensures FirstHeader(b) <= n && n + |frame| <= |b|
  {
    FrameStartsLow(c, frame, p);
    assert b[n] == b[n..][0] == frame[0];
    var i := FirstHeader(b);
    assert forall j :: 0 <= j < i ==> b[..i][j] == b[j];
  }

  lemma DropTwice(b: seq<byte>, i: nat, j: nat)
    requires i + j <= |b|
    ensures b[i..][j..] == b[i + j..]
  {
  }

  lemma FrameStartsLow(c: Crc, frame: seq<byte>, p: Packet)
    requires IsFrame(c, frame, p)
    ensures frame != [] && frame[0] == HEADER_LOW
  {
  }

  // ----- the server's receiver

  lemma MicroSkips(c: Crc, space: nat, d: seq<byte>, largest: nat)
    requires space >= 7 && FalseStart(c, d, largest) && largest <= 4096 && largest <= space - 7
    ensures MicroStreamDatagram.AtHeader(c, space, d) == MicroStreamDatagram.Attempt(d[1] != HEADER_HIGH, d[2..], None)
  {
  }

  /** An attempt on `b` delivers nothing and leaves `left`. */
  ghost predicate Leaves(c: Crc, space: nat, b: seq<byte>, left: seq<byte>)
    requires space >= 7
  {
    var a := MicroStreamDatagram.TryEmit(c, space, b);
    a.packet == None && a.left == left
  }

  /** So do the attempts one after the other, with nothing new arriving. */
  ghost predicate AllLeave(c: Crc, space: nat, buffers: seq<seq<byte>>)
    requires space >= 7
  {
    forall j :: 0 <= j < |buffers| - 1 ==> Leaves(c, space, buffers[j], buffers[j + 1])
  }

  lemma MicroStep(c: Crc, space: nat, b: seq<byte>, i: nat)
    requires space >= 7 && i == FirstHeader(b) && i + 2 <= |b|
    requires MicroStreamDatagram.AtHeader(c, space, b[i..]) == MicroStreamDatagram.Attempt(b[i..][1] != HEADER_HIGH, b[i..][2..], None)
    ensures MicroStreamDatagram.TryEmit(c, space, b).left == b[i + 2..] && MicroStreamDatagram.TryEmit(c, space, b).packet == None
  {
    DropTwice(b, i, 2);
  }

  lemma MicroDelivers(c: Crc, space: nat, b: seq<byte>, n: nat, frame: seq<byte>, p: Packet, tail: seq<byte>)
    requires space >= 7 && n == FirstHeader(b) && IsFrame(c, frame, p) && |p.payload| <= 4096 && |p.payload| <= space - 7
    requires b[n..] == tail && frame <= tail
    ensures MicroStreamDatagram.TryEmit(c, space, b) == MicroStreamDatagram.Attempt(true, tail[|frame|..], Some(p))
  {
    MicroStreamDatagram.FrameIsDelivered(c, space, frame, p, tail);
    FrameStartsLow(c, frame, p);
  }

  lemma OneMoreLeaves(c: Crc, space: nat, b: seq<byte>, buffers: seq<seq<byte>>)
    requires space >= 7 && buffers != [] && AllLeave(c, space, buffers) && Leaves(c, space, b, buffers[0])
    ensures AllLeave(c, space, [b] + buffers)
  {
    var all := [b] + buffers;
    forall j | 0 <= j < |all| - 1 ensures Leaves(c, space, all[j], all[j + 1]) {
      assert j > 0 ==> all[j] == buffers[j - 1];
    }
  }

  lemma MicroOne(c: Crc, space: nat, b: seq<byte>, n: nat, largest: nat, tail: seq<byte>) returns (rest: seq<byte>, n1: nat)
    requires space >= 7 && largest <= 4096 && largest <= space - 7
    requires FalseStarts(c, b, n, largest) && FirstHeader(b) < n && b[n..] == tail
    ensures n1 + 2 <= n && FalseStarts(c, rest, n1, largest) && rest[n1..] == tail
    ensures Leaves(c, space, b, rest)
  {
    var i := FirstHeader(b);
    rest, n1 := b[i + 2..], n - i - 2;
    FalseStartsLeft(c, b, n, largest);
    MicroSkips(c, space, b[i..], largest);
    MicroStep(c, space, b, i);
    DropTwice(b, i + 2, n1);
  }

  /** Its attempts cost at least two bytes each, and the first to deliver anything delivers the good frame. */
  lemma {:induction false} MicroRecovers(c: Crc, space: nat, b: seq<byte>, n: nat, frame: seq<byte>, p: Packet,
                                         tail: seq<byte>, largest: nat)
    returns (buffers: seq<seq<byte>>)
    requires space >= 7 && largest <= 4096 && largest <= space - 7
    requires FalseStarts(c, b, n, largest) && IsFrame(c, frame, p) && |p.payload| <= largest
    requires b[n..] == tail && frame <= tail
    ensures buffers != [] && buffers[0] == b && 2 * (|buffers| - 1) <= n && AllLeave(c, space, buffers)
    ensures MicroStreamDatagram.TryEmit(c, space, buffers[|buffers| - 1]) == MicroStreamDatagram.Attempt(true, tail[|frame|..], Some(p))
    decreases n
  {
    HeaderBefore(c, b, n, frame, p);
    if FirstHeader(b) < n {
      var rest, n1 := MicroOne(c, space, b, n, largest, tail);
      var later := MicroRecovers(c, space, rest, n1, frame, p, tail, largest);
      OneMoreLeaves(c, space, b, later);
      buffers := [b] + later;
    } else {
      MicroDelivers(c, space, b, n, frame, p, tail);
      buffers := [b];
    }
  }
}
