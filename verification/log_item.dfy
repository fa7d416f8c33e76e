/** Reading an item, and evaluating a seek marker, outcome by outcome: for every block that holds the fields. */
module LogItem {
  import opened Bytes
  import opened Varuint
  import opened Framing
  import opened LogFormat
  import opened SeekMarker

  /** The four known flags, and whatever other bits are set: bit 3, and those from bit 5 on. */
  function AllFlags(previous: bool, time: bool, checked: bool, packed: bool, bit3: bool, high: nat): nat {
    (if previous then 1 else 0) + (if time then 2 else 0) + (if checked then 4 else 0) + (if bit3 then 8 else 0)
    + (if packed then 16 else 0) + 32 * high
  }

  /** A data block's fields, with flags as they come. */
  function FieldsWith(id: nat, flags: nat, previous: Option<nat>, time: Option<int>): seq<byte> {
    Encode(id) + (Encode(flags) + (Previous(previous) + Time(time)))
  }

  /** A data block with any four bytes, or none, in the place of the checksum. */
  function BlockWith(id: nat, flags: nat, previous: Option<nat>, time: Option<int>, sum: seq<byte>, stored: seq<byte>): seq<byte> {
    BlockBytes(TYPE_DATA, FieldsWith(id, flags, previous, time) + (sum + stored))
  }

  lemma AllFlagsRead(previous: bool, time: bool, checked: bool, packed: bool, bit3: bool, high: nat)
    ensures
      var flags := AllFlags(previous, time, checked, packed, bit3, high);
      && HasPrevious(flags) == previous && HasTime(flags) == time && HasChecksum(flags) == checked
      && HasSnappy(flags) == packed && (HasUnknown(flags) <==> bit3 || high > 0)
  {
    var flags := AllFlags(previous, time, checked, packed, bit3, high);
    var f16 := (if packed then 1 else 0) + 2 * high;
    var f8 := (if bit3 then 1 else 0) + 2 * f16;
    var f4 := (if checked then 1 else 0) + 2 * f8;
    var f2 := (if time then 1 else 0) + 2 * f4;
    assert flags == (if previous then 1 else 0) + 2 * f2;
    assert flags / 2 == f2 && f2 / 2 == f4 && f4 / 2 == f8 && f8 / 2 == f16;
    assert flags / 4 == f4 && flags / 8 == f8 && flags / 16 == f16;
  }

  lemma FieldsWithRead(id: nat, flags: nat, previous: Option<nat>, time: Option<int>, rest: seq<byte>)
    requires id < TWO64 && flags < TWO64 && (previous.Some? ==> previous.value < TWO64) && (time.Some? ==> IsTime(time.value))
    requires HasPrevious(flags) == previous.Some? && HasTime(flags) == time.Some?
    ensures ReadFields(FieldsWith(id, flags, previous, time) + rest) == Got((id, flags, time), rest)
  {
    var b3 := Time(time) + rest;
    var b2 := Previous(previous) + b3;
    var b1 := Encode(flags) + b2;
    Assoc(Encode(id), Encode(flags) + (Previous(previous) + Time(time)), rest);
    Assoc(Encode(flags), Previous(previous) + Time(time), rest);
    Assoc(Previous(previous), Time(time), rest);
    assert FieldsWith(id, flags, previous, time) + rest == Encode(id) + b1;
    DecodeAfterEncode(id, b1);
    DecodeAfterEncode(flags, b2);
    if previous.Some? {
      DecodeAfterEncode(previous.value, b3);
    } else {
      assert b2 == b3;
    }
    if time.Some? {
      ReadTimeAfter(time.value, rest);
    } else {
      assert b3 == rest;
    }
  }

  /** Every such block, followed by anything, is refused for an unknown flag, or else for a payload that does not
      decompress, or else, if checksums are verified, for a checksum that is not that of the block with zeros in the
      checksum's place; and otherwise it is read as its identifier, time and payload. */
  lemma BlockReadsAs(c: Crc, codec: Codec, verify: bool, id: nat, previous: Option<nat>, time: Option<int>,
                     checked: bool, packed: bool, bit3: bool, high: nat, sum: nat, stored: seq<byte>, rest: seq<byte>)
    requires id < TWO64 && (previous.Some? ==> previous.value < TWO64) && (time.Some? ==> IsTime(time.value))
    requires sum < TWO32
    requires AllFlags(previous.Some?, time.Some?, checked, packed, bit3, high) < TWO64
    requires |FieldsWith(id, AllFlags(previous.Some?, time.Some?, checked, packed, bit3, high), previous, time)|
             + 4 + |stored| < TWO64
    ensures
      var flags := AllFlags(previous.Some?, time.Some?, checked, packed, bit3, high);
      var block := BlockWith(id, flags, previous, time, if checked then LE(sum, 4) else [], stored);
      var data := if packed then codec.uncompress(stored) else Some(stored);
      ReadItem(c, codec, verify, block + rest) ==
        if bit3 || high > 0 then UnknownFlag
        else if data == None then DecompressionError
        else if checked && verify && sum != Checksum32(c, BlockWith(id, flags, previous, time, ZEROS, stored))
        then ChecksumMismatch
        else Good(LogFormat.Item.Item(id, flags, time, data.value))
  {
    var flags := AllFlags(previous.Some?, time.Some?, checked, packed, bit3, high);
    AllFlagsRead(previous.Some?, time.Some?, checked, packed, bit3, high);
    var fields, tail := FieldsWith(id, flags, previous, time), (if checked then LE(sum, 4) else []) + stored;
    BodyIsRead(c, codec, verify, fields + tail, rest);
    FieldsWithRead(id, flags, previous, time, tail);
    DropOfConcat(fields, tail, |fields|);
    var header := Encode(TYPE_DATA) + Encode(|fields + tail|);
    if checked {
      Pow256Values();
      LERoundTrip(sum, 4);
      assert tail[..4] == LE(sum, 4) && tail[4..] == stored;
      assert |fields + tail| == |fields + (ZEROS + stored)|;
      Zeroed(header, fields, ZEROS, stored);
    } else {
      assert tail == stored;
    }
  }

  lemma BodyIsRead(c: Crc, codec: Codec, verify: bool, body: seq<byte>, rest: seq<byte>)
    requires |body| < TWO64
    ensures ReadItem(c, codec, verify, BlockBytes(TYPE_DATA, body) + rest)
         == ReadBody(c, codec, verify, Encode(TYPE_DATA) + Encode(|body|), body)
  {
    var header := Encode(TYPE_DATA) + Encode(|body|);
    HeaderAfterBlock(TYPE_DATA, body, rest);
    Assoc(header, body, rest);
    var b := header + (body + rest);
    assert (body + rest)[..|body|] == body && b[..|header|] == header;
  }

  lemma Zeroed(header: seq<byte>, fields: seq<byte>, zeros: seq<byte>, stored: seq<byte>)
    ensures header + fields + zeros + stored == header + (fields + (zeros + stored))
  {
  }

  // ----- seek markers

  predicate AllKnown(offsets: seq<(nat, nat)>, ids: set<nat>) {
    forall i :: 0 <= i < |offsets| ==> offsets[i].0 in ids
  }

  lemma {:induction false} OffsetsReadAs(offsets: seq<(nat, nat)>, index: nat, ids: set<nat>, rest: seq<byte>)
    requires forall i :: 0 <= i < |offsets| ==> offsets[i].0 < TWO64 && offsets[i].1 < TWO64
    ensures ReadOffsets(Offsets(offsets) + rest, |offsets|, index, ids)
         == if AllKnown(offsets, ids) then Got(LastOf(offsets, index), rest) else Abort
  {
    if offsets == [] {
      assert [] + rest == rest;
    } else {
      var later := Offsets(offsets[1..]) + rest;
      Assoc(Encode(offsets[0].0), Encode(offsets[0].1) + Offsets(offsets[1..]), rest);
      Assoc(Encode(offsets[0].1), Offsets(offsets[1..]), rest);
      DecodeAfterEncode(offsets[0].0, Encode(offsets[0].1) + later);
      DecodeAfterEncode(offsets[0].1, later);
      OffsetsReadAs(offsets[1..], index, ids, rest);
      AllKnownFirst(offsets, ids);
    }
  }

  lemma AllKnownFirst(offsets: seq<(nat, nat)>, ids: set<nat>)
    requires offsets != []
    ensures AllKnown(offsets, ids) <==> offsets[0].0 in ids && AllKnown(offsets[1..], ids)
  {
    assert forall i :: 1 <= i < |offsets| ==> offsets[i] == offsets[1..][i - 1];
  }

  /** Of several offsets for one identifier the first counts. */
  lemma {:induction false} FirstOffsetCounts(offsets: seq<(nat, nat)>, index: nat, i: nat)
    requires i < |offsets| && forall j :: 0 <= j < i ==> offsets[j].0 != offsets[i].0
    ensures offsets[i].0 in LastOf(offsets, index) && LastOf(offsets, index)[offsets[i].0] == index - offsets[i].1
  {
    if i > 0 {
      assert offsets[1..][i - 1] == offsets[i];
      FirstOffsetCounts(offsets[1..], index, i - 1);
    }
  }

  /** What comes behind the byte of the header's size. */
  function MarkerRest(flags: nat, time: int, offsets: seq<(nat, nat)>, junk: seq<byte>): seq<byte> {
    Encode(flags) + (LE(Bits64(time), 8) + (Encode(|offsets|) + (Offsets(offsets) + junk)))
  }

  function MarkerWith(sign: seq<byte>, sum: seq<byte>, rest: seq<byte>): seq<byte> {
    BlockBytes(TYPE_SEEK_MARKER, sign + (sum + rest))
  }

  lemma MarkerRestRead(flags: nat, time: int, offsets: seq<(nat, nat)>, junk: seq<byte>, start: nat, ids: set<nat>)
    requires flags < TWO64 && IsTime(time) && |offsets| < TWO64
    requires forall i :: 0 <= i < |offsets| ==> offsets[i].0 < TWO64 && offsets[i].1 < TWO64
    ensures ReadTail(MarkerRest(flags, time, offsets, junk), start, ids)
         == if flags == 0 && AllKnown(offsets, ids) then Got((time, LastOf(offsets, start)), junk) else Abort
  {
    var b3 := Offsets(offsets) + junk;
    DecodeAfterEncode(flags, LE(Bits64(time), 8) + (Encode(|offsets|) + b3));
    ReadTimeAfter(time, Encode(|offsets|) + b3);
    DecodeAfterEncode(|offsets|, b3);
    OffsetsReadAs(offsets, start, ids, junk);
  }

  /** Every block of a marker's type that holds the fields is an exception for flags or an identifier that are unknown;
      it is no marker when anything is left behind the last offset, or for a checksum that is not that of the block with
      zeros in the checksum's place; and otherwise it is the marker they make. */
  lemma MarkerReadsAs(c: Crc, ids: set<nat>, start: nat, sign: seq<byte>, sum: nat, size: byte, flags: nat, time: int,
                      offsets: seq<(nat, nat)>, junk: seq<byte>, more: seq<byte>)
    requires |sign| == 8 && sum < TWO32 && flags < TWO64 && IsTime(time) && |offsets| < TWO64
    requires forall i :: 0 <= i < |offsets| ==> offsets[i].0 < TWO64 && offsets[i].1 < TWO64
    requires 13 + |MarkerRest(flags, time, offsets, junk)| < 0x8000_0000_0000_0000
    ensures
      var rest := [size] + MarkerRest(flags, time, offsets, junk);
      EvaluateBlock(c, ids, start, MarkerWith(sign, LE(sum, 4), rest) + more) ==
        if flags != 0 || !AllKnown(offsets, ids) then Trouble
        else if junk != [] || sum != Checksum32(c, MarkerWith(sign, ZEROS, rest)) then NoMarker
        else Marker(time, start, LastOf(offsets, start))
  {
    var tail := MarkerRest(flags, time, offsets, junk);
    var rest := [size] + tail;
    var body := sign + (LE(sum, 4) + rest);
    MarkerRestRead(flags, time, offsets, junk, start, ids);
    MarkerBodyRead(c, ids, start, body, more);
    Pow256Values();
    LERoundTrip(sum, 4);
    MarkerParts(sign, LE(sum, 4), size, tail, body);
    var header := Encode(TYPE_SEEK_MARKER) + Encode(|body|);
    assert |sign + (ZEROS + rest)| == |body|;
    assert header + sign + ZEROS + rest == header + (sign + (ZEROS + rest));
  }

  lemma MarkerBodyRead(c: Crc, ids: set<nat>, start: nat, body: seq<byte>, more: seq<byte>)
    requires 13 <= |body| < 0x8000_0000_0000_0000
    ensures EvaluateBlock(c, ids, start, BlockBytes(TYPE_SEEK_MARKER, body) + more)
         == EvaluateBody(c, ids, start, Encode(TYPE_SEEK_MARKER) + Encode(|body|), body, |body|)
  {
    var header := Encode(TYPE_SEEK_MARKER) + Encode(|body|);
    HeaderAfterBlock(TYPE_SEEK_MARKER, body, more);
    Assoc(header, body, more);
    DropOfConcat(header, body + more, |header|);
    DropOfConcat(body, more, |body|);
  }

  lemma MarkerParts(sign: seq<byte>, sum: seq<byte>, size: byte, tail: seq<byte>, body: seq<byte>)
    requires |sign| == 8 && |sum| == 4 && body == sign + (sum + ([size] + tail))
    ensures |body| == 13 + |tail| && body[..8] == sign && body[8..12] == sum && body[12..] == [size] + tail
    ensures body[13..] == tail
  {
  }
}
