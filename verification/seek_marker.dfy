/** Seek markers: telling a written one from bytes that merely look like one, and searching for one. */
module SeekMarker {
  import opened Bytes
  import opened Streams
  import opened Varuint
  import opened Framing
  import opened LogFormat

  /** What looking at a possible marker comes to: none; one, with its time, its position, and where the last data block
      of each identifier before it starts; or an exception or failed assertion on the way. */
  datatype Evaluated = NoMarker | Marker(time: int, index: nat, last: map<nat, int>) | Trouble

  /** `n` pairs of an identifier and an offset back from `index`; std::map::insert keeps the first of equal keys. */
  function ReadOffsets(b: seq<byte>, n: nat, index: nat, ids: set<nat>): (r: Read<map<nat, int>>)
    ensures r.Got? ==> |r.rest| <= |b|
    decreases n
  {
    if n == 0 then Got(map[], b)
    else
      var (id, b1) :- Decode(b);
      var (offset, b2) :- Decode(b1);
      if id !in ids then Abort
      else
        var (later, b3) :- ReadOffsets(b2, n - 1, index, ids);
        Got(later[id := index - offset], b3)
  }

  function ReadTail(b: seq<byte>, index: nat, ids: set<nat>): Read<(int, map<nat, int>)> {
    var (flags, b1) :- Decode(b);
    if flags != 0 then Abort
    else
      var (time, b2) :- ReadTime(b1);
      var (n, b3) :- Decode(b2);
      var (last, b4) :- ReadOffsets(b3, n, index, ids);
      Got((time, last), b4)
  }

  /** The bytes from a possible start on.  A size that is negative as a streamsize fails the first assertion. */
  function EvaluateBlock(c: Crc, ids: set<nat>, start: nat, b: seq<byte>): (r: Evaluated)
    ensures r.Marker? ==> r.index == start
  {
    match ReadHeader(b)
    case Got(head, body) =>
      if head.0 != TYPE_SEEK_MARKER then NoMarker
      else if |body| < 13 || head.1 < 13 || head.1 >= 0x8000_0000_0000_0000 then Trouble
      else EvaluateBody(c, ids, start, b[..|b| - |body|], body[..Min(|body|, head.1)], head.1)
    case Short => NoMarker
    case Abort => if HasBadType(b) then NoMarker else Trouble
  }

  /** Of the two ways for a header to fail, the harmless one. */
  predicate HasBadType(b: seq<byte>) {
    Decode(b).Got? && (Decode(b).value == 0 || Decode(b).value > 5)
  }

  /** `body` is the part of a block of `size` bytes that the file has. */
  function EvaluateBody(c: Crc, ids: set<nat>, start: nat, header: seq<byte>, body: seq<byte>,
                        size: nat): (r: Evaluated)
    requires |body| >= 13
    ensures r.Marker? ==> r.index == start
  {
    match ReadTail(body[13..], start, ids)
    case Got(v, rest) =>
      if rest != [] || |body| < size then NoMarker
      else if FromLE(body[8..12]) != Checksum32(c, header + body[..8] + ZEROS + body[12..]) then NoMarker
      else Marker(v.0, start, v.1)
    case _ => Trouble
  }

  /** What a file has for a marker at each position. */
  type Blocks = f: nat -> Evaluated | forall start :: f(start).Marker? ==> f(start).index == start witness (start: nat) => NoMarker

  function BlocksIn(c: Crc, file: seq<byte>, ids: set<nat>): Blocks {
    (start: nat) => if start <= |file| then EvaluateBlock(c, ids, start, file[start..]) else NoMarker
  }

  /** EvaluateSeekMarker.  `index` is meant to be the position of the last byte that matched the signature, and `pos` is
      where the stream stands.  The byte behind the checksum says how far before the signature the block would start,
      counted from `index`; what decides is that a whole block with the right checksum is there. */
  function Evaluate(blocks: Blocks, file: seq<byte>, index: nat, pos: nat): (r: Evaluated)
    ensures r.Marker? ==> 9 <= r.index && index - 17 <= r.index <= index - 7
  {
    if pos + 4 >= |file| then Trouble
    else
      var headerLen: nat := file[pos + 4];
      if headerLen > 10 || index - 7 - headerLen < 9 then NoMarker else blocks(index - 7 - headerLen)
  }

  // ----- a written marker is recognised

  function LastOf(offsets: seq<(nat, nat)>, index: nat): map<nat, int> {
    if offsets == [] then map[] else LastOf(offsets[1..], index)[offsets[0].0 := index - offsets[0].1]
  }

  lemma {:induction false} OffsetsRead(offsets: seq<(nat, nat)>, index: nat, ids: set<nat>)
    requires forall i :: 0 <= i < |offsets| ==> offsets[i].0 < TWO64 && offsets[i].1 < TWO64 && offsets[i].0 in ids
    ensures ReadOffsets(Offsets(offsets), |offsets|, index, ids) == Got(LastOf(offsets, index), [])
  {
    if offsets != [] {
      var b1 := Encode(offsets[0].1) + Offsets(offsets[1..]);
      DecodeAfterEncode(offsets[0].0, b1);
      DecodeAfterEncode(offsets[0].1, Offsets(offsets[1..]));
      OffsetsRead(offsets[1..], index, ids);
    }
  }

  lemma TailRead(time: int, offsets: seq<(nat, nat)>, index: nat, ids: set<nat>)
    requires IsTime(time) && |offsets| < TWO64
    requires forall i :: 0 <= i < |offsets| ==> offsets[i].0 < TWO64 && offsets[i].1 < TWO64 && offsets[i].0 in ids
    ensures ReadTail(MarkerTail(time, offsets), index, ids) == Got((time, LastOf(offsets, index)), [])
  {
    var b3 := Offsets(offsets);
    var b2 := Encode(|offsets|) + b3;
    DecodeAfterEncode(0, LE(Bits64(time), 8) + b2);
    ReadTimeAfter(time, b2);
    DecodeAfterEncode(|offsets|, b3);
    OffsetsRead(offsets, index, ids);
  }

  lemma BodyEvaluates(c: Crc, ids: set<nat>, start: nat, time: int, offsets: seq<(nat, nat)>)
    requires IsTime(time) && |offsets| < TWO64
    requires forall i :: 0 <= i < |offsets| ==> offsets[i].0 < TWO64 && offsets[i].1 < TWO64 && offsets[i].0 in ids
    ensures EvaluateBody(c, ids, start, Encode(TYPE_SEEK_MARKER) + Encode(MarkerSize(time, offsets)), MarkerBody(c, time, offsets),
                         MarkerSize(time, offsets))
         == Marker(time, start, LastOf(offsets, start))
  {
    var body, sum := MarkerBody(c, time, offsets), LE(MarkerSum(c, time, offsets), 4);
    var behind := [MarkerHeaderSize(time, offsets) % 256] + MarkerTail(time, offsets);
    assert body[..8] == SIGNATURE;
    assert body[8..] == sum + behind;
    SliceOfSuffix(body, 8, 0, 4);
    assert body[8..12] == sum && body[12..] == behind;
    SliceOfSuffix(body, 12, 0, 1);
    assert body[13..] == MarkerTail(time, offsets);
    TailRead(time, offsets, start, ids);
    Pow256Values();
    LERoundTrip(MarkerSum(c, time, offsets), 4);
  }

  // ----- where a written marker is

  /** The marker of block `k` of a log, in its file. */
  ghost predicate WrittenAt(c: Crc, enc: Encoding, log: seq<Entry>, k: nat, ids: set<nat>, file: seq<byte>,
                            time: int, offsets: seq<(nat, nat)>)
  {
    && k < |log| && log[k] == MarkerEntry(time, offsets) && file == FileBytes(enc, log) && Encodes(c, enc)
    && IsTime(time) && |offsets| < TWO64 && MarkerSize(time, offsets) < Pow128(9)
    && forall i :: 0 <= i < |offsets| ==> offsets[i].0 < TWO64 && offsets[i].1 < TWO64 && offsets[i].0 in ids
  }

  /** Where its signature starts. */
  function SignatureOf(enc: Encoding, log: seq<Entry>, k: nat): nat
    requires k < |log| && log[k].MarkerEntry?
  {
    Position(enc, log, k) + MarkerHeaderSize(log[k].time, log[k].offsets)
  }

  predicate IsSignature(file: seq<byte>, p: nat) {
    p + 8 <= |file| && file[p..p + 8] == SIGNATURE
  }

  /** A written marker, looked at from the last byte of its signature, is found for what it is. */
  lemma MarkerIsFound(c: Crc, enc: Encoding, log: seq<Entry>, k: nat, ids: set<nat>, file: seq<byte>,
                      time: int, offsets: seq<(nat, nat)>)
    requires WrittenAt(c, enc, log, k, ids, file, time, offsets)
    ensures
      var start, q := Position(enc, log, k), SignatureOf(enc, log, k);
      && HasMarker(file, start, q)
      && Evaluate(BlocksIn(c, file, ids), file, q + 7, q + 8) == Marker(time, start, LastOf(offsets, start))
  {
    var start := Position(enc, log, k);
    MarkerLayout(c, enc, log, k, ids, file, time, offsets);
    BlockFound(c, ids, start, time, offsets, LogBytes(enc, log[k + 1..]), file[start..]);
  }

  /** The bytes around a written marker's start: its type, its size, its signature at `q`, and behind the checksum the
      size of its header. */
  ghost predicate HasMarker(file: seq<byte>, start: nat, q: nat) {
    && start + 2 <= q <= start + 10 && q + 12 < |file| && file[q + 12] == q - start && IsSignature(file, q)
    && file[start] == TYPE_SEEK_MARKER && file[q - 1] < 128 && forall i :: start < i < q - 1 ==> file[i] >= 128
  }

  lemma MarkerLayout(c: Crc, enc: Encoding, log: seq<Entry>, k: nat, ids: set<nat>, file: seq<byte>,
                     time: int, offsets: seq<(nat, nat)>)
    requires WrittenAt(c, enc, log, k, ids, file, time, offsets)
    ensures HasMarker(file, Position(enc, log, k), SignatureOf(enc, log, k))
    ensures file[Position(enc, log, k)..]
         == BlockBytes(TYPE_SEEK_MARKER, MarkerBody(c, time, offsets)) + LogBytes(enc, log[k + 1..])
  {
    var start, later := Position(enc, log, k), LogBytes(enc, log[k + 1..]);
    MarkerBytes(c, enc, log, k, time, offsets);
    HeaderBytes(c, file, start, SignatureOf(enc, log, k), time, offsets, later);
  }

  lemma MarkerBytes(c: Crc, enc: Encoding, log: seq<Entry>, k: nat, time: int, offsets: seq<(nat, nat)>)
    requires k < |log| && log[k] == MarkerEntry(time, offsets) && Encodes(c, enc)
    ensures
      var start, file := Position(enc, log, k), FileBytes(enc, log);
      && start <= |file|
      && file[start..] == BlockBytes(TYPE_SEEK_MARKER, MarkerBody(c, time, offsets)) + LogBytes(enc, log[k + 1..])
  {
    FileFrom(enc, log, k);
    assert EncodesEntry(c, enc, log[k]);
  }

  lemma HeaderBytes(c: Crc, file: seq<byte>, start: nat, q: nat, time: int, offsets: seq<(nat, nat)>, later: seq<byte>)
    requires start <= |file| && file[start..] == BlockBytes(TYPE_SEEK_MARKER, MarkerBody(c, time, offsets)) + later
    requires MarkerSize(time, offsets) < Pow128(9) && q == start + MarkerHeaderSize(time, offsets)
    ensures HasMarker(file, start, q)
  {
    var h, size, body := MarkerHeaderSize(time, offsets), Encode(MarkerSize(time, offsets)), MarkerBody(c, time, offsets);
    var b, front := BlockBytes(TYPE_SEEK_MARKER, body), Encode(TYPE_SEEK_MARKER) + size;
    LastByteEnds(MarkerSize(time, offsets));
    HeaderByte(c, file, start, time, offsets, later);
    assert b == front + body && |front| == h;
    forall i | 0 <= i < h ensures file[start + i] == front[i] {
      assert file[start..][i] == b[i];
    }
    SliceOfSuffix(file, start, h, h + 8);
    assert file[start..][h..h + 8] == body[..8] == SIGNATURE;
    forall i | start < i < start + h - 1 ensures file[i] >= 128 {
      assert file[start + (i - start)] == front[i - start] == size[i - start - 1];
    }
    assert file[start + (h - 1)] == front[h - 1] == size[h - 2];
    assert file[start + 0] == front[0];
  }

  lemma BlockFound(c: Crc, ids: set<nat>, start: nat, time: int, offsets: seq<(nat, nat)>, later: seq<byte>,
                   b: seq<byte>)
    requires b == BlockBytes(TYPE_SEEK_MARKER, MarkerBody(c, time, offsets)) + later
    requires IsTime(time) && |offsets| < TWO64 && MarkerSize(time, offsets) < Pow128(9)
    requires forall i :: 0 <= i < |offsets| ==> offsets[i].0 < TWO64 && offsets[i].1 < TWO64 && offsets[i].0 in ids
    ensures EvaluateBlock(c, ids, start, b) == Marker(time, start, LastOf(offsets, start))
  {
    BlockEvaluates(c, ids, start, MarkerBody(c, time, offsets), later, b);
    BodyEvaluates(c, ids, start, time, offsets);
  }

  /** The byte behind the checksum. */
  lemma MarkerByte(c: Crc, time: int, offsets: seq<(nat, nat)>)
    ensures MarkerBody(c, time, offsets)[12] == MarkerHeaderSize(time, offsets) % 256
  {
  }

  lemma BlockEvaluates(c: Crc, ids: set<nat>, start: nat, body: seq<byte>, later: seq<byte>, b: seq<byte>)
    requires b == BlockBytes(TYPE_SEEK_MARKER, body) + later && 13 <= |body| < Pow128(9)
    ensures EvaluateBlock(c, ids, start, b)
         == EvaluateBody(c, ids, start, Encode(TYPE_SEEK_MARKER) + Encode(|body|), body, |body|)
  {
    var header := Encode(TYPE_SEEK_MARKER) + Encode(|body|);
    Pow128Nine();
    HeaderAfterBlock(TYPE_SEEK_MARKER, body, later);
    Assoc(header, body, later);
    DropOfConcat(header, body + later, |header|);
    DropOfConcat(body, later, |body|);
  }

  lemma HeaderByte(c: Crc, file: seq<byte>, start: nat, time: int, offsets: seq<(nat, nat)>, later: seq<byte>)
    requires start <= |file| && file[start..] == BlockBytes(TYPE_SEEK_MARKER, MarkerBody(c, time, offsets)) + later
    requires MarkerSize(time, offsets) < Pow128(9)
    ensures
      var h := MarkerHeaderSize(time, offsets);
      h <= 10 && start + h + 12 < |file| && file[start + h + 12] == h
  {
    var h := MarkerHeaderSize(time, offsets);
    SizeBound(MarkerSize(time, offsets), 9);
    MarkerByte(c, time, offsets);
    assert file[start + h + 12] == file[start..][h + 12];
  }

  lemma Pow128Nine()
    ensures Pow128(9) < TWO64
  {
    assert Pow128(3) == 0x20_0000;
    assert Pow128(6) == 0x20_0000 * 0x20_0000;
    assert Pow128(9) == 0x20_0000 * 0x20_0000 * 0x20_0000;
  }

  // ----- a signature that stands close to a written marker

  /** The only signature that leads to a marker's start is its own. */
  lemma OnlyItsSignature(blocks: Blocks, file: seq<byte>, start: nat, q: nat, p: nat)
    requires HasMarker(file, start, q) && IsSignature(file, p)
    ensures Finds(Evaluate(blocks, file, p + 7, p + 8), start) ==> p == q
  {
    if Finds(Evaluate(blocks, file, p + 7, p + 8), start) {
      NoneInHeader(file, start, q, p);
      if p == q + 8 {
        SignatureByte(file, p, 4);
      }
    }
  }

  /** Taken one byte too far, none does. */
  lemma LateMissesMarker(blocks: Blocks, file: seq<byte>, start: nat, q: nat, p: nat)
    requires HasMarker(file, start, q) && IsSignature(file, p)
    ensures !Finds(Evaluate(blocks, file, p + 8, p + 8), start)
  {
    if Finds(Evaluate(blocks, file, p + 8, p + 8), start) {
      NoneInHeader(file, start, q, p);
    }
  }

  ghost predicate Finds(r: Evaluated, start: nat) {
    r.Marker? && r.index == start
  }

  lemma SignatureByte(file: seq<byte>, p: nat, i: nat)
    requires IsSignature(file, p) && i < 8
    ensures file[p + i] == SIGNATURE[i]
  {
    assert file[p..p + 8][i] == file[p + i];
  }

  /** Two signatures do not overlap, and none starts in a marker's header or just before it. */
  lemma NoneInHeader(file: seq<byte>, start: nat, q: nat, p: nat)
    requires HasMarker(file, start, q) && IsSignature(file, p)
    ensures p + 1 < start || p == q || q + 8 <= p
  {
    SignatureByte(file, p, 0);
    SignatureByte(file, p, 1);
    SignatureByte(file, q, 0);
    if q < p < q + 8 {
      SignatureByte(file, q, p - q);
    }
  }

  /** A written marker's own signature, taken one byte too far, comes to nothing: the size would be the type. */
  lemma LateFindsNothing(c: Crc, enc: Encoding, log: seq<Entry>, k: nat, ids: set<nat>, file: seq<byte>,
                         time: int, offsets: seq<(nat, nat)>)
    requires WrittenAt(c, enc, log, k, ids, file, time, offsets)
    ensures var q := SignatureOf(enc, log, k); Evaluate(BlocksIn(c, file, ids), file, q + 8, q + 8) == NoMarker
  {
    var start := Position(enc, log, k);
    MarkerLayout(c, enc, log, k, ids, file, time, offsets);
    Pow128Nine();
    SizeAsType(c, ids, start + 1, MarkerBody(c, time, offsets), LogBytes(enc, log[k + 1..]), file[start..], file[start + 1..]);
  }

  lemma SizeAsType(c: Crc, ids: set<nat>, start: nat, body: seq<byte>, later: seq<byte>, b: seq<byte>, b1: seq<byte>)
    requires 6 <= |body| < TWO64 && b == BlockBytes(TYPE_SEEK_MARKER, body) + later && b1 == b[1..]
    ensures EvaluateBlock(c, ids, start, b1) == NoMarker
  {
    var size, typ: seq<byte> := Encode(|body|), [TYPE_SEEK_MARKER];
    Assoc(typ, size, body);
    Assoc(typ, size + body, later);
    Assoc(size, body, later);
    DropOfConcat(typ, size + (body + later), 1);
    assert typ[1..] == [] && [] + (size + (body + later)) == size + (body + later);
    DecodeAfterEncode(|body|, body + later);
  }

  // ----- the search

  /** FindSeekMarker from somewhere inside its loop: `index` is what the loop counts, `pos` where the stream stands and
      `matched` how many bytes of the signature are behind it.  After a match that was no marker the stream is put back
      to `index`, which is then counted on: from there on the stream stands one byte short of `index`. */
  function Search(blocks: Blocks, file: seq<byte>, stop: int, index: nat, pos: nat, matched: nat): (r: Evaluated)
    requires matched < 8 && pos <= index <= pos + 1 && stop <= |file|
    decreases stop - index
  {
    var hit := pos < |file| && file[pos] == SIGNATURE[matched];
    var full := hit && matched == 7;
    var e := if full then Evaluate(blocks, file, index, pos + 1) else NoMarker;
    if e != NoMarker then e
    else if index + 1 >= stop then NoMarker
    else Search(blocks, file, stop, index + 1, if full then index else pos + 1, if hit && !full then matched + 1 else 0)
  }

  /** FindSeekMarker as a whole. */
  function Sought(c: Crc, file: seq<byte>, ids: set<nat>, from: nat, end: int): Evaluated {
    Search(BlocksIn(c, file, ids), file, Min(|file|, end), from, from, 0)
  }

  method FindSeekMarker(c: Crc, file: seq<byte>, ids: set<nat>, from: nat, end: int) returns (r: Evaluated)
    ensures r == Sought(c, file, ids, from, end)
  {
    var stopPoint := Min(|file|, end);
    var blocks := BlocksIn(c, file, ids);
    ghost var sought := Sought(c, file, ids, from, end);
    var index: nat, pos: nat, matched: nat := from, from, 0;
    while true
      invariant matched < 8 && pos <= index <= pos + 1
      invariant Search(blocks, file, stopPoint, index, pos, matched) == sought
      decreases stopPoint - index
    {
      var c0: nat := 0;
      if pos < |file| {
        c0 := file[pos];
        pos := pos + 1;
      }
      if c0 == SIGNATURE[matched] {
        matched := matched + 1;
        if matched == 8 {
          r := Evaluate(blocks, file, index, pos);
          if r != NoMarker {
            return;
          }
          pos := index;
          matched := 0;
        }
      } else {
        matched := 0;
      }
      index := index + 1;
      if index >= stopPoint {
        return NoMarker;
      }
    }
  }

  /** The first `m` bytes of the signature end at `pos`. */
  predicate IsPart(file: seq<byte>, pos: nat, m: nat) {
    m <= 8 && m <= pos <= |file| && file[pos - m..pos] == SIGNATURE[..m]
  }

  lemma PartGrows(file: seq<byte>, pos: nat, m: nat)
    requires m < 8 && IsPart(file, pos, m) && pos < |file| && file[pos] == SIGNATURE[m]
    ensures IsPart(file, pos + 1, m + 1) && (m == 7 ==> IsSignature(file, pos - 7))
  {
    assert file[pos - m..pos + 1] == file[pos - m..pos] + [file[pos]];
    assert SIGNATURE[..m + 1] == SIGNATURE[..m] + [SIGNATURE[m]];
  }

  /** What the search returns was found behind a signature that ends in range: at its true position, or one byte
      late. */
  lemma {:induction false} SearchFindsAt(blocks: Blocks, file: seq<byte>, stop: int, index: nat, pos: nat, matched: nat)
    returns (p: nat, at: nat)
    requires matched < 8 && pos <= index <= pos + 1 && stop <= |file|
    requires IsPart(file, pos, matched)
    ensures
      var r := Search(blocks, file, stop, index, pos, matched);
      r != NoMarker ==>
        && IsSignature(file, p) && p + 7 <= at <= p + 8 && index <= at && (at == index || at < stop)
        && r == Evaluate(blocks, file, at, p + 8)
    decreases stop - index
  {
    p, at := 0, 0;
    var hit := pos < |file| && file[pos] == SIGNATURE[matched];
    if hit {
      PartGrows(file, pos, matched);
    }
    var full := hit && matched == 7;
    if full && Evaluate(blocks, file, index, pos + 1) != NoMarker {
      p, at := pos - 7, index;
    } else if index + 1 < stop {
      var next, m := if full then index else pos + 1, if hit && !full then matched + 1 else 0;
      p, at := SearchFindsAt(blocks, file, stop, index + 1, next, m);
    }
  }

  // ----- which written markers it finds

  /** How many bytes of the signature a search from `from` has behind it at `p`, a byte that breaks a match off not
      being looked at again as the start of the next. */
  function Progress(file: seq<byte>, from: nat, p: nat): (m: nat)
    requires from <= p <= |file|
    ensures m < 8 && m <= p - from
    decreases p
  {
    if p == from then 0
    else
      var m := Progress(file, from, p - 1);
      if file[p - 1] == SIGNATURE[m] && m < 7 then m + 1 else 0
  }

  /** A signature that a search from `from` recognises: it stands at the first byte with no match begun. */
  predicate Recognised(file: seq<byte>, from: nat, p: nat) {
    from <= p && IsSignature(file, p) && Progress(file, from, p) == 0
  }

  /** The first one of those. */
  ghost predicate FirstRecognised(file: seq<byte>, from: nat, q: nat) {
    Recognised(file, from, q) && forall p: nat :: p < q ==> !Recognised(file, from, p)
  }

  /** A match begun is a part of the signature that began with none. */
  lemma {:induction false} ProgressIsPart(file: seq<byte>, from: nat, p: nat)
    requires from <= p <= |file|
    ensures
      var m := Progress(file, from, p);
      Progress(file, from, p - m) == 0 && IsPart(file, p, m)
    decreases p
  {
    if p > from {
      ProgressIsPart(file, from, p - 1);
      var m := Progress(file, from, p - 1);
      if file[p - 1] == SIGNATURE[m] && m < 7 {
        PartGrows(file, p - 1, m);
      }
    }
  }

  lemma {:induction false} ProgressThrough(file: seq<byte>, from: nat, p: nat, j: nat)
    requires Recognised(file, from, p) && j < 8
    ensures Progress(file, from, p + j) == j
    decreases j
  {
    if j > 0 {
      ProgressThrough(file, from, p, j - 1);
      SignatureByte(file, p, j - 1);
    }
  }

  /** The eighth byte of a match: a signature was recognised. */
  lemma FullIsRecognised(file: seq<byte>, from: nat, p: nat)
    requires from <= p < |file| && Progress(file, from, p) == 7 && file[p] == SIGNATURE[7]
    ensures p >= 7 && Recognised(file, from, p - 7)
  {
    ProgressIsPart(file, from, p);
    PartGrows(file, p, 7);
  }

  /** Once the stream has fallen behind, no written marker is found any more. */
  lemma {:induction false} BehindFindsNone(blocks: Blocks, file: seq<byte>, start: nat, q: nat,
                                           stop: int, pos: nat, matched: nat)
    requires HasMarker(file, start, q) && stop <= |file|
    requires matched < 8 && IsPart(file, pos, matched)
    ensures !Finds(Search(blocks, file, stop, pos + 1, pos, matched), start)
    decreases stop - pos
  {
    var hit := pos < |file| && file[pos] == SIGNATURE[matched];
    if hit {
      PartGrows(file, pos, matched);
    }
    var full := hit && matched == 7;
    if full {
      LateMissesMarker(blocks, file, start, q, pos + 1 - 8);
    }
    if (full ==> Evaluate(blocks, file, pos + 1, pos + 1) == NoMarker) && pos + 2 < stop {
      BehindFindsNone(blocks, file, start, q, stop, pos + 1, if hit && !full then matched + 1 else 0);
    }
  }

  /** From a place before which no signature was recognised: the first one recognised is the only one that counts.  `e`
      is what evaluating the marker's own signature comes to. */
  lemma {:induction false} FoundFrom(blocks: Blocks, file: seq<byte>, start: nat, q: nat, e: Evaluated,
                                     from: nat, stop: int, p: nat)
    requires HasMarker(file, start, q) && e == Evaluate(blocks, file, q + 7, q + 8) && Finds(e, start)
    requires from <= p < stop <= |file| && NoneBefore(file, from, p)
    ensures FoundIff(Search(blocks, file, stop, p, p, Progress(file, from, p)), e, q + 7 < stop && FirstRecognised(file, from, q))
    decreases stop - p
  {
    var m := Progress(file, from, p);
    if m == 7 && file[p] == SIGNATURE[7] {
      FullIsRecognised(file, from, p);
      FirstOf(file, from, p - 7, q);
      FoundHere(blocks, file, start, q, e, stop, p - 7);
    } else {
      NotFull(file, from, p, q);
      SearchOn(blocks, file, from, stop, p);
      if p + 1 < stop {
        FoundFrom(blocks, file, start, q, e, from, stop, p + 1);
      }
    }
  }

  /** The marker `e` is found exactly under a condition, and if its start is found, so is all of it. */
  ghost predicate FoundIff(r: Evaluated, e: Evaluated, condition: bool)
    requires e.Marker?
  {
    (Finds(r, e.index) <==> condition) && (condition ==> r == e)
  }

  /** No signature that ends before `p` was recognised. */
  ghost predicate NoneBefore(file: seq<byte>, from: nat, p: nat) {
    forall i: nat :: i + 8 <= p ==> !Recognised(file, from, i)
  }

  /** At the end of a recognised signature the search finds its marker, or never finds one. */
  lemma FoundHere(blocks: Blocks, file: seq<byte>, start: nat, q: nat, e: Evaluated, stop: int, p: nat)
    requires HasMarker(file, start, q) && e == Evaluate(blocks, file, q + 7, q + 8) && Finds(e, start)
    requires IsSignature(file, p) && p + 7 < stop <= |file|
    ensures FoundIff(Search(blocks, file, stop, p + 7, p + 7, 7), e, p == q)
  {
    SignatureByte(file, p, 7);
    OnlyItsSignature(blocks, file, start, q, p);
    BehindFindsNone(blocks, file, start, q, stop, p + 7, 0);
  }

  lemma SearchOn(blocks: Blocks, file: seq<byte>, from: nat, stop: int, p: nat)
    requires from <= p < stop <= |file| && !(Progress(file, from, p) == 7 && file[p] == SIGNATURE[7])
    ensures Search(blocks, file, stop, p, p, Progress(file, from, p)) ==
              if p + 1 >= stop then NoMarker else Search(blocks, file, stop, p + 1, p + 1, Progress(file, from, p + 1))
  {
  }

  lemma NotFull(file: seq<byte>, from: nat, p: nat, q: nat)
    requires from <= p < |file| && NoneBefore(file, from, p)
    requires !(Progress(file, from, p) == 7 && file[p] == SIGNATURE[7])
    ensures NoneBefore(file, from, p + 1)
    ensures FirstRecognised(file, from, q) ==> q + 7 > p
  {
    forall i: nat | i + 8 <= p + 1 ensures !Recognised(file, from, i) {
      if i + 8 == p + 1 && Recognised(file, from, i) {
        ProgressThrough(file, from, i, 7);
        SignatureByte(file, i, 7);
      }
    }
  }

  lemma FirstOf(file: seq<byte>, from: nat, p: nat, q: nat)
    requires Recognised(file, from, p) && forall i: nat :: i < p ==> !Recognised(file, from, i)
    ensures FirstRecognised(file, from, q) <==> p == q
  {
  }

  /** A written marker is found if and only if its signature lies in range and is the first that the search recognises:
      the search stands at its first byte with no match begun, and no earlier signature took it in. */
  lemma MarkerFoundIff(c: Crc, enc: Encoding, log: seq<Entry>, k: nat, ids: set<nat>, file: seq<byte>,
                       time: int, offsets: seq<(nat, nat)>, from: nat, end: int)
    requires WrittenAt(c, enc, log, k, ids, file, time, offsets)
    ensures
      var start, q := Position(enc, log, k), SignatureOf(enc, log, k);
      FoundIff(Sought(c, file, ids, from, end), Marker(time, start, LastOf(offsets, start)),
               q + 7 < end && FirstRecognised(file, from, q))
  {
    MarkerIsFound(c, enc, log, k, ids, file, time, offsets);
    FoundInRange(BlocksIn(c, file, ids), file, Position(enc, log, k), SignatureOf(enc, log, k),
                 Marker(time, Position(enc, log, k), LastOf(offsets, Position(enc, log, k))), from, end);
  }

  lemma FoundInRange(blocks: Blocks, file: seq<byte>, start: nat, q: nat, e: Evaluated, from: nat, end: int)
    requires HasMarker(file, start, q) && e == Evaluate(blocks, file, q + 7, q + 8) && Finds(e, start)
    ensures FoundIff(Search(blocks, file, Min(|file|, end), from, from, 0), e, q + 7 < end && FirstRecognised(file, from, q))
  {
    var stop := Min(|file|, end);
    if from < stop {
      assert NoneBefore(file, from, from);
      FoundFrom(blocks, file, start, q, e, from, stop, from);
    }
  }

  /** So once a signature was recognised that is not a marker's, no marker behind it is found in this call. */
  lemma FalsePositiveHides(c: Crc, enc: Encoding, log: seq<Entry>, k: nat, ids: set<nat>, file: seq<byte>,
                           time: int, offsets: seq<(nat, nat)>, from: nat, end: int, p: nat)
    requires WrittenAt(c, enc, log, k, ids, file, time, offsets)
    requires Recognised(file, from, p) && p < SignatureOf(enc, log, k)
    ensures !Finds(Sought(c, file, ids, from, end), Position(enc, log, k))
  {
    MarkerFoundIff(c, enc, log, k, ids, file, time, offsets, from, end);
  }

  /** And a marker is missed when the byte before its signature begins a match. */
  lemma SearchMisses(c: Crc, enc: Encoding, log: seq<Entry>, k: nat, ids: set<nat>, file: seq<byte>,
                     time: int, offsets: seq<(nat, nat)>, from: nat, end: int)
    requires WrittenAt(c, enc, log, k, ids, file, time, offsets)
    requires
      var q := SignatureOf(enc, log, k);
      from < q <= |file| && file[q - 1] == SIGNATURE[0] && Progress(file, from, q - 1) == 0
    ensures !Finds(Sought(c, file, ids, from, end), Position(enc, log, k))
  {
    MarkerFoundIff(c, enc, log, k, ids, file, time, offsets, from, end);
  }
}
