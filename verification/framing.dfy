/** Multiplex frames: their checksum, their grammar, how they are written, and the bytes of a line carrying several. */
module Framing {
  import opened Bytes
  import opened Streams
  import opened Varuint

  // ----- checksums

  /** A checksum is a fold of one step over the bytes; which polynomial the step stands for does not matter here. */
  datatype Crc = Crc(initial: nat, step: (nat, byte) -> nat)

  function Fold(c: Crc, state: nat, b: seq<byte>): nat
    decreases |b|
  {
    if b == [] then state else Fold(c, c.step(state, b[0]), b[1..])
  }

  function Checksum(c: Crc, b: seq<byte>): (r: nat)
    ensures r < 65536
  {
    Fold(c, c.initial, b) % 65536
  }

  function Checksum32(c: Crc, b: seq<byte>): (r: nat)
    ensures r < TWO32
  {
    Fold(c, c.initial, b) % 0x1_0000_0000
  }

  /** Adding bytes piece by piece comes to the same checksum as adding them at once. */
  lemma {:induction false} FoldConcat(c: Crc, state: nat, a: seq<byte>, b: seq<byte>)
    ensures Fold(c, state, a + b) == Fold(c, Fold(c, state, a), b)
    decreases |a|
  {
    if a == [] {
      assert a + b == b;
    } else {
      assert (a + b)[1..] == a[1..] + b;
      FoldConcat(c, c.step(state, a[0]), a[1..], b);
    }
  }

  /** base::CrcWriteStream. */
  class CrcWriteStream {
    const base: OStream
    const crc: Crc
    ghost const start: seq<byte>
    var state: nat

    /** What has gone through since construction. */
    ghost predicate Wrote(b: seq<byte>)
      reads this, base
    {
      base.data == start + b && state == Fold(crc, crc.initial, b)
    }

    constructor (base: OStream, crc: Crc)
      ensures this.base == base && this.crc == crc && start == base.data && Wrote([])
    {
      this.base := base;
      this.crc := crc;
      start := base.data;
      state := crc.initial;
      new;
      assert base.data + [] == base.data;
    }

    method Write(b: seq<byte>, ghost was: seq<byte>)
      requires Wrote(was)
      modifies this, base
      ensures Wrote(was + b)
    {
      base.Write(b);
      state := ProcessBytes(crc, state, b);
      FoldConcat(crc, crc.initial, was, b);
      assert start + was + b == start + (was + b);
    }

    method Checksum16() returns (r: nat)
      ensures r == state % 65536
    {
      r := state % 65536;
    }
  }

  /** base::CrcReadStream. */
  class CrcReadStream {
    const base: BufferReadStream
    const crc: Crc
    var state: nat

    ghost predicate Valid()
      reads this, base
    {
      base.Valid() && state == Fold(crc, crc.initial, base.buffer[..base.offset])
    }

    constructor (base: BufferReadStream, crc: Crc)
      requires base.Valid() && base.offset == 0
      ensures Valid() && this.base == base && this.crc == crc
    {
      this.base := base;
      this.crc := crc;
      state := crc.initial;
    }

    /** Brings the checksum up to the base stream, which was at `from`. */
    method CatchUp(from: nat)
      requires from <= base.offset && base.Valid() && state == Fold(crc, crc.initial, base.buffer[..from])
      modifies this
      ensures Valid()
    {
      var consumed := base.buffer[from..base.offset];
      state := ProcessBytes(crc, state, consumed);
      FoldConcat(crc, crc.initial, base.buffer[..from], consumed);
      assert base.buffer[..base.offset] == base.buffer[..from] + consumed;
    }

    method ReadScalar(size: nat) returns (r: Option<nat>)
      requires Valid()
      modifies this, base
      ensures Valid()
      ensures match ReadLE(old(base.Rest()), size)
              case Got(v, rest) => r == Some(v) && base.offset == old(base.offset) + size
              case _ => r == None
    {
      var from := base.offset;
      r := base.ReadScalar(size);
      assert base.offset == |base.buffer| - |base.Rest()|;
      CatchUp(from);
    }

    method ReadVaruint() returns (r: Option<nat>)
      requires Valid()
      modifies this, base
      ensures Valid()
      ensures match Decode32(old(base.Rest()))
              case Got(v, rest) => r == Some(v) && base.Rest() == rest && base.offset == |base.buffer| - |rest|
              case _ => r == None
    {
      var from := base.offset;
      r := ReadVaruint32(base);
      assert base.offset == |base.buffer| - |base.Rest()|;
      CatchUp(from);
    }

    method Read(size: nat) returns (data: seq<byte>)
      requires Valid()
      modifies this, base
      ensures Valid()
      ensures |data| == Min(size, |old(base.Rest())|) && base.offset == old(base.offset) + |data|
      ensures data == old(base.Rest())[..|data|]
    {
      var from := base.offset;
      data := base.Read(size);
      assert base.offset == |base.buffer| - |base.Rest()|;
      CatchUp(from);
    }
  }

  /** process_bytes. */
  method ProcessBytes(c: Crc, state: nat, b: seq<byte>) returns (r: nat)
    ensures r == Fold(c, state, b)
  {
    r := state;
    for i := 0 to |b|
      invariant Fold(c, state, b) == Fold(c, r, b[i..])
    {
      assert b[i..][1..] == b[i + 1..];
      r := c.step(r, b[i]);
    }
  }

  // ----- the frame grammar

  const HEADER_LOW: byte := 0x54
  const HEADER_HIGH: byte := 0xab

  /** What a frame carries; the top bit of `source` asks for a reply. */
  datatype Packet = Packet(source: byte, dest: byte, payload: seq<byte>)

  function Body(p: Packet): seq<byte> {
    [HEADER_LOW, HEADER_HIGH, p.source, p.dest] + Encode(Wrap32(|p.payload|)) + p.payload
  }

  function Encoded(c: Crc, p: Packet): seq<byte> {
    Body(p) + LE(Checksum(c, Body(p)), 2)
  }

  /** `frame` is a frame for `p` by the published grammar: any spelling of its size will do. */
  ghost predicate IsFrame(c: Crc, frame: seq<byte>, p: Packet) {
    && |frame| >= 7
    && frame[0] == HEADER_LOW && frame[1] == HEADER_HIGH && frame[2] == p.source && frame[3] == p.dest
    && Decode32(frame[4..]) == Got(|p.payload|, p.payload + LE(Checksum(c, frame[..|frame| - 2]), 2))
  }

  /** What is written is a frame. */
  lemma EncodedIsFrame(c: Crc, p: Packet)
    requires |p.payload| < TWO32
    ensures IsFrame(c, Encoded(c, p), p)
    ensures |Encoded(c, p)| == 6 + |Encode(|p.payload|)| + |p.payload|
  {
    var e, sum := Encoded(c, p), LE(Checksum(c, Body(p)), 2);
    assert e[4..] == Encode(|p.payload|) + (p.payload + sum);
    Decode32AfterEncode(|p.payload|, p.payload + sum);
    assert e[..|e| - 2] == Body(p);
  }

  /** Where the size ends: a frame is its size field's end, the payload, and two bytes. */
  function HeadSize(frame: seq<byte>, p: Packet): int {
    |frame| - 2 - |p.payload|
  }

  /** What a receiver sees of a frame when its buffer `b` holds a first part of it, or all of it and more. */
  lemma SeenOfFrame(c: Crc, frame: seq<byte>, p: Packet, b: seq<byte>, rest: seq<byte>, after: seq<byte>)
    requires IsFrame(c, frame, p) && |p.payload| < TWO32 - 1
    requires b + rest == frame + after
    ensures |b| > 0 ==> b[0] == HEADER_LOW
    ensures |b| > 1 ==> b[1] == HEADER_HIGH
    ensures |b| > 3 ==> b[2] == p.source && b[3] == p.dest
    ensures 5 <= HeadSize(frame, p)
    ensures 4 <= |b| < HeadSize(frame, p) ==> Decode32(b[4..]) == Short
    ensures HeadSize(frame, p) <= |b| ==> Decode32(b[4..]) == Got(|p.payload|, b[HeadSize(frame, p)..])
    ensures |frame| <= |b| ==> b[..|frame|] == frame && b[|frame|..] + rest == after
  {
    SeenBytes(frame, b, rest, after);
    if |b| >= 4 {
      SeenNumber(frame, b, rest, after);
    }
  }

  lemma SeenBytes(frame: seq<byte>, b: seq<byte>, rest: seq<byte>, after: seq<byte>)
    requires b + rest == frame + after
    ensures forall i :: 0 <= i < |b| && i < |frame| ==> b[i] == frame[i]
    ensures |frame| <= |b| ==> b[..|frame|] == frame && b[|frame|..] + rest == after
  {
    var whole := frame + after;
    assert b == whole[..|b|];
    assert forall i :: 0 <= i < |frame| ==> whole[i] == frame[i];
    if |frame| <= |b| {
      assert b[..|frame|] == whole[..|frame|] == frame;
      assert b[|frame|..] + rest == whole[|frame|..] == after;
    }
  }

  lemma SeenNumber(frame: seq<byte>, b: seq<byte>, rest: seq<byte>, after: seq<byte>)
    requires b + rest == frame + after && |b| >= 4 && |frame| >= 4
    requires Decode32(frame[4..]).Got? && Decode32(frame[4..]).value < TWO32 - 1
    ensures
      var h := |frame| - |Decode32(frame[4..]).rest|;
      Decode32(b[4..]) == if |b| < h then Short else Got(Decode32(frame[4..]).value, b[h..])
  {
    var whole, h := frame + after, |frame| - |Decode32(frame[4..]).rest|;
    assert b == whole[..|b|];
    assert whole[4..] == frame[4..] + after;
    SeenSize(frame[4..], after, |b| - 4);
    assert b[4..] == whole[4..][..|b| - 4];
    assert h <= |b| ==> b[4..][h - 4..] == b[h..];
  }

  /** The size field as read from the first `n` bytes of it and all that follows. */
  lemma SeenSize(b: seq<byte>, after: seq<byte>, n: int)
    requires Decode32(b).Got? && Decode32(b).value < TWO32 - 1 && n <= |b + after|
    ensures
      var size := |b| - |Decode32(b).rest|;
      n >= 0 ==> Decode32((b + after)[..n]) == if n < size then Short else Got(Decode32(b).value, (b + after)[..n][size..])
  {
    Decode32OfPart(b, 0, after);
    if n >= 0 {
      Decode32OfPart(b + after, n, []);
      var size := |b| - |Decode32(b).rest|;
      assert n >= size ==> (b + after)[size..][..n - size] == (b + after)[..n][size..];
    }
  }

  /** A whole frame at the front of a buffer: its payload and its checksum are where a receiver looks for them. */
  lemma PartsOfFrame(c: Crc, frame: seq<byte>, p: Packet, b: seq<byte>)
    requires IsFrame(c, frame, p) && |p.payload| < TWO32 - 1 && |frame| <= |b| && b[..|frame|] == frame
    ensures
      var h := HeadSize(frame, p);
      && 0 <= h && h + |p.payload| + 2 == |frame|
      && b[h..h + |p.payload|] == p.payload
      && FromLE(b[h + |p.payload|..|frame|]) == Checksum(c, b[..h + |p.payload|])
  {
    var h, sum := HeadSize(frame, p), LE(Checksum(c, frame[..|frame| - 2]), 2);
    Decode32OfPart(frame[4..], 0, []);
    assert frame[4..][h - 4..] == frame[h..];
    assert frame[h..] == p.payload + sum;
    assert b[h..h + |p.payload|] == frame[h..][..|p.payload|];
    assert b[h + |p.payload|..|frame|] == frame[h..][|p.payload|..] == sum;
    assert b[..h + |p.payload|] == frame[..|frame| - 2];
    LERoundTrip(Checksum(c, frame[..|frame| - 2]), 2);
    assert Pow256(2) == 65536 by { assert Pow256(1) == 256; }
  }

  /** Bytes that pass a receiver's checks are a frame: a header, a size that ends at `head`, the payload, its
      checksum. */
  lemma CheckedIsFrame(c: Crc, frame: seq<byte>, size: nat, head: nat)
    requires |frame| >= 7 && frame[0] == HEADER_LOW && frame[1] == HEADER_HIGH
    requires head + size + 2 == |frame| && Decode32(frame[4..]) == Got(size, frame[head..])
    requires FromLE(frame[head + size..]) == Checksum(c, frame[..head + size])
    ensures IsFrame(c, frame, Packet(frame[2], frame[3], frame[head..head + size]))
  {
    var sum := frame[head + size..];
    TwoBytes(sum);
    assert frame[head..] == frame[head..head + size] + sum;
  }

  lemma TwoBytes(b: seq<byte>)
    requires |b| == 2
    ensures b == LE(FromLE(b), 2)
  {
    assert FromLE(b[1..]) == b[1];
    assert FromLE(b) == b[0] + 256 * FromLE(b[1..]);
    assert LE(FromLE(b), 2)[1..] == LE(FromLE(b) / 256, 1);
  }

  /** A size read from a buffer reads the same from any part of it that goes as far. */
  lemma SizeInside(b: seq<byte>, n: nat)
    requires 4 <= n <= |b| && Decode32(b[4..]).Got?
    requires n >= |b| - |Decode32(b[4..]).rest|
    ensures
      var head := |b| - |Decode32(b[4..]).rest|;
      && Decode32(b[4..]).rest == b[head..]
      && Decode32(b[..n][4..]) == Got(Decode32(b[4..]).value, b[head..n])
  {
    assert b[..n][4..] == b[4..][..n - 4];
    var head := |b| - |Decode32(b[4..]).rest|;
    if TooLong(b[4..]) {
      assert TooLong(b[4..][..n - 4]);
      assert b[4..][5..] == b[9..] && b[4..][..n - 4][5..] == b[9..n];
    } else {
      Decode32OfPart(b[4..], n - 4, []);
      SliceOfSuffix(b, 4, 0, head - 4);
      assert b[head..][..n - head] == b[head..n];
    }
  }

  lemma CutAt(b: seq<byte>, n: nat, head: nat, size: nat)
    requires head + size + 2 == n <= |b|
    ensures b[head..n] == b[..n][head..] && b[head..head + size] == b[..n][head..head + size]
    ensures b[head + size..head + size + 2] == b[..n][head + size..] && b[..head + size] == b[..n][..head + size]
  {
  }

  // ----- a line carrying frames

  datatype Item = Item(gap: seq<byte>, frame: seq<byte>, packet: Packet)

  /** Frames, each after some noise, then more noise. */
  datatype Line = Line(items: seq<Item>, tail: seq<byte>)

  ghost predicate Quiet(gap: seq<byte>) {
    forall i :: 0 <= i < |gap| ==> gap[i] != HEADER_LOW
  }

  function BytesOf(line: Line): seq<byte>
    decreases |line.items|
  {
    if line.items == [] then line.tail
    else line.items[0].gap + line.items[0].frame + BytesOf(Line(line.items[1..], line.tail))
  }

  function PacketsOf(items: seq<Item>): (ps: seq<Packet>)
    ensures |ps| == |items|
  {
    if items == [] then [] else [items[0].packet] + PacketsOf(items[1..])
  }

  /** No noise can be taken for a header, and every frame is one, not above the given limits. */
  ghost predicate Clear(c: Crc, line: Line, longest: nat, largest: nat) {
    && Quiet(line.tail)
    && forall i :: 0 <= i < |line.items| ==> ClearItem(c, line.items[i], longest, largest)
  }

  ghost predicate ClearItem(c: Crc, item: Item, longest: nat, largest: nat) {
    && Quiet(item.gap) && IsFrame(c, item.frame, item.packet)
    && |item.frame| <= longest && |item.packet.payload| <= largest
  }

  /** The same line once the first `n` bytes of noise are gone. */
  function Quieter(line: Line, n: nat): (r: Line)
    requires n <= |line.tail| || line.items != []
    requires line.items != [] ==> n <= |line.items[0].gap|
    ensures PacketsOf(r.items) == PacketsOf(line.items)
  {
    if line.items == [] then line.(tail := line.tail[n..])
    else
      var first := line.items[0];
      line.(items := [first.(gap := first.gap[n..])] + line.items[1..])
  }

  function Later(line: Line): Line
    requires line.items != []
  {
    line.(items := line.items[1..])
  }

  /** Where the first possible header is, or the end. */
  function FirstHeader(b: seq<byte>): (i: nat)
    ensures i <= |b| && Quiet(b[..i]) && (i < |b| ==> b[i] == HEADER_LOW)
  {
    if b == [] || b[0] == HEADER_LOW then 0
    else
      var i := 1 + FirstHeader(b[1..]);
      assert b[..i] == [b[0]] + b[1..][..i - 1];
      i
  }

  lemma {:induction false} FirstHeaderIs(b: seq<byte>, i: nat)
    requires i <= |b| && Quiet(b[..i]) && (i < |b| ==> b[i] == HEADER_LOW)
    ensures FirstHeader(b) == i
  {
    if i > 0 {
      assert b[..i][0] == b[0];
      assert b[1..][..i - 1] == b[..i][1..];
      FirstHeaderIs(b[1..], i - 1);
    }
  }

  /** How much of the buffered bytes is noise: all of them, or up to the first frame; and what remains of the line. */
  lemma NoiseFirst(c: Crc, line: Line, b: seq<byte>, rest: seq<byte>, longest: nat, largest: nat)
    returns (n: nat)
    requires Clear(c, line, longest, largest) && b + rest == BytesOf(line)
    ensures n == FirstHeader(b) <= |b|
    ensures line.items != [] ==> n == Min(|b|, |line.items[0].gap|)
    ensures line.items == [] ==> n == |b| <= |line.tail|
    ensures Clear(c, Quieter(line, n), longest, largest) && b[n..] + rest == BytesOf(Quieter(line, n))
    ensures line.items != [] && n < |b| ==>
              b[n..] + rest == line.items[0].frame + BytesOf(Later(line))
  {
    if line.items == [] {
      n := |b|;
      assert b == line.tail[..n] && rest == line.tail[n..];
      FirstHeaderIs(b, n);
      assert b[n..] + rest == rest;
    } else {
      var first := line.items[0];
      var others := first.frame + BytesOf(Later(line));
      n := Min(|b|, |first.gap|);
      assert ClearItem(c, first, longest, largest);
      assert BytesOf(line) == first.gap + others;
      NoiseEnds(b, rest, first.gap, others);
      QuieterBytes(c, line, n, longest, largest);
    }
  }

  lemma NoiseEnds(b: seq<byte>, rest: seq<byte>, gap: seq<byte>, others: seq<byte>)
    requires b + rest == gap + others && Quiet(gap) && others != [] && others[0] == HEADER_LOW
    ensures
      var n := Min(|b|, |gap|);
      FirstHeader(b) == n && b[n..] + rest == gap[n..] + others
  {
    var n := Min(|b|, |gap|);
    DropOfConcat(b, rest, n);
    DropOfConcat(gap, others, n);
    assert b[..n] == gap[..n];
    if n < |b| {
      assert b[n] == (b[n..] + rest)[0] == others[0];
    }
    FirstHeaderIs(b, n);
  }

  lemma QuieterBytes(c: Crc, line: Line, n: nat, longest: nat, largest: nat)
    requires Clear(c, line, longest, largest) && line.items != [] && n <= |line.items[0].gap|
    ensures Clear(c, Quieter(line, n), longest, largest)
    ensures BytesOf(Quieter(line, n)) == line.items[0].gap[n..] + (line.items[0].frame + BytesOf(Later(line)))
  {
    var q := Quieter(line, n);
    assert q.items[1..] == line.items[1..];
    assert ClearItem(c, line.items[0], longest, largest);
    assert ClearItem(c, q.items[0], longest, largest);
    forall i | 0 <= i < |q.items| ensures ClearItem(c, q.items[i], longest, largest) {
      assert i > 0 ==> q.items[i] == line.items[i];
    }
  }

  lemma LineIsLong(line: Line)
    requires line.items != []
    ensures |BytesOf(line)| >= |line.items[0].gap| + |line.items[0].frame|
  {
  }

  // ----- the two writers

  /** Frame of the client library; its encode() goes through a checksumming stream. */
  datatype Frame = Frame(source: byte, requestReply: bool, dest: byte, payload: seq<byte>)

  /** source_id | 0x80 when a reply is requested. */
  function SourceByte(f: Frame): byte {
    if f.requestReply && f.source < 128 then f.source + 128 else f.source
  }

  function PacketOf(f: Frame): Packet {
    Packet(SourceByte(f), f.dest, f.payload)
  }

  function FrameOf(p: Packet): Frame {
    Frame(p.source % 128, p.source >= 128, p.dest, p.payload)
  }

  /** The header byte has room for a source below 128 only. */
  lemma FrameSurvivesIff(f: Frame)
    ensures FrameOf(PacketOf(f)) == f <==> f.source < 128
  {
  }

  method EncodeFrame(c: Crc, f: Frame, stream: OStream)
    modifies stream
    ensures stream.data == old(stream.data) + Encoded(c, PacketOf(f))
  {
    var crcStream := new CrcWriteStream(stream, c);
    var size := new OStream();
    WriteVaruint(size, Wrap32(|f.payload|));
    var p := PacketOf(f);
    crcStream.Write([HEADER_LOW, HEADER_HIGH], []);
    crcStream.Write([p.source], [] + [HEADER_LOW, HEADER_HIGH]);
    crcStream.Write([f.dest], [] + [HEADER_LOW, HEADER_HIGH] + [p.source]);
    ghost var head := [] + [HEADER_LOW, HEADER_HIGH] + [p.source] + [f.dest];
    crcStream.Write(size.data, head);
    crcStream.Write(f.payload, head + size.data);
    ghost var body := head + size.data + f.payload;
    assert body == Body(p);
    var checksum := crcStream.Checksum16();
    crcStream.Write(LE(checksum, 2), body);
    assert body + LE(checksum, 2) == Encoded(c, p);
  }
}
