/** The telemetry log as bytes: blocks, what each kind holds, and what reading one gives back. */
module LogFormat {
  import opened Bytes
  import opened Varuint
  import opened Framing
  import BinaryFormat
  import SchemaParser

  const TYPE_SCHEMA := 1
  const TYPE_DATA := 2
  const TYPE_INDEX := 3
  const TYPE_SEEK_MARKER := 5

  /** A data block: its identifier, how far back the previous one of that identifier starts, when it was written,
      whether it carries a checksum, whether it is compressed, and its bytes as stored. */
  datatype Data = Data(id: nat, previous: Option<nat>, time: Option<int>, checked: bool, packed: bool, stored: seq<byte>)

  /** Per identifier: where its schema block and its last data block start, the latter -1 when there is none. */
  datatype IndexRecord = IndexRecord(id: nat, schemaAt: nat, lastAt: int)

  datatype Entry =
    | SchemaEntry(id: nat, name: seq<byte>, schema: seq<byte>)
    | DataEntry(data: Data)
    | MarkerEntry(time: int, offsets: seq<(nat, nat)>)
    | IndexEntry(records: seq<IndexRecord>)

  // ----- checksums and scalars

  const ZEROS: seq<byte> := [0, 0, 0, 0]

  /** A time in microseconds, apart from the three patterns that stand for special values. */
  predicate IsTime(t: int) {
    -0x7FFF_FFFF_FFFF_FFFF < t < 0x7FFF_FFFF_FFFF_FFFF
  }

  /** A signed 64-bit number as its unsigned pattern, and back. */
  function Bits64(v: int): (r: nat)
    ensures r < TWO64
  {
    v % 0x1_0000_0000_0000_0000
  }

  function Signed64(bits: nat): int {
    if bits < 0x8000_0000_0000_0000 then bits else bits - 0x1_0000_0000_0000_0000
  }

  lemma Signed64OfBits64(v: int)
    requires -0x8000_0000_0000_0000 <= v < 0x8000_0000_0000_0000
    ensures Signed64(Bits64(v)) == v
  {
    if v < 0 {
      assert v == -0x1_0000_0000_0000_0000 + (v + 0x1_0000_0000_0000_0000);
    }
  }

  function ReadTime(b: seq<byte>): (r: Read<int>)
    ensures !r.Abort?
  {
    var (bits, rest) :- ReadLE(b, 8);
    Got(Signed64(bits), rest)
  }

  lemma Pow256Values()
    ensures Pow256(1) == 256 && Pow256(4) == TWO32 && Pow256(8) == TWO64
  {
    assert Pow256(0) == 1;
    assert Pow256(2) == 0x1_0000 && Pow256(3) == 0x100_0000;
    assert Pow256(5) == 0x100_0000_0000 && Pow256(6) == 0x1_0000_0000_0000 && Pow256(7) == 0x100_0000_0000_0000;
  }

  lemma ReadTimeAfter(t: int, rest: seq<byte>)
    requires IsTime(t)
    ensures ReadTime(LE(Bits64(t), 8) + rest) == Got(t, rest)
  {
    Pow256Values();
    ReadLEAfterLE(Bits64(t), 8, rest);
    Signed64OfBits64(t);
  }

  // ----- blocks

  function BlockBytes(typ: nat, body: seq<byte>): (b: seq<byte>)
    ensures |b| > 1
  {
    Encode(typ) + Encode(|body|) + body
  }

  /** The type of a block and the size of its body; `Abort` is the exception for a type out of range. */
  function ReadHeader(b: seq<byte>): (r: Read<(nat, nat)>)
    ensures r.Got? ==> |r.rest| < |b|
  {
    var (typ, b1) :- Decode(b);
    if typ == 0 || typ > 5 then Abort
    else
      match Decode(b1)
      case Got(size, b2) => Got((typ, size), b2)
      case _ => Abort
  }

  lemma HeaderAfterBlock(typ: nat, body: seq<byte>, rest: seq<byte>)
    requires 1 <= typ <= 5 && |body| < TWO64
    ensures ReadHeader(BlockBytes(typ, body) + rest) == Got((typ, |body|), body + rest)
    ensures |BlockBytes(typ, body)| == 1 + |Encode(|body|)| + |body|
  {
    var b1 := Encode(|body|) + (body + rest);
    Assoc(Encode(typ), Encode(|body|), body);
    Assoc(Encode(typ), Encode(|body|) + body, rest);
    Assoc(Encode(|body|), body, rest);
    DecodeAfterEncode(typ, b1);
    DecodeAfterEncode(|body|, body + rest);
  }

  // ----- data blocks

  function Flags(d: Data): nat {
    (if d.previous.Some? then 1 else 0) + (if d.time.Some? then 2 else 0) + (if d.checked then 4 else 0)
    + (if d.packed then 16 else 0)
  }

  /** What comes before the checksum. */
  function Fields(d: Data): seq<byte> {
    Encode(d.id) + (Encode(Flags(d)) + (Previous(d.previous) + Time(d.time)))
  }

  function Previous(p: Option<nat>): seq<byte> {
    if p.Some? then Encode(p.value) else []
  }

  function Time(t: Option<int>): seq<byte> {
    if t.Some? then LE(Bits64(t.value), 8) else []
  }

  function BodySize(d: Data): nat {
    |Fields(d)| + (if d.checked then 4 else 0) + |d.stored|
  }

  /** The block up to its checksum. */
  function DataStart(d: Data): seq<byte> {
    Encode(TYPE_DATA) + Encode(BodySize(d)) + Fields(d)
  }

  /** The checksum is that of the whole block with zeros in its own place. */
  function DataSum(c: Crc, d: Data): (r: nat)
    ensures r < TWO32
  {
    Checksum32(c, DataStart(d) + ZEROS + d.stored)
  }

  function SumBytes(c: Crc, d: Data): seq<byte> {
    if d.checked then LE(DataSum(c, d), 4) else []
  }

  function DataBody(c: Crc, d: Data): (b: seq<byte>)
    ensures |b| == BodySize(d)
  {
    Fields(d) + (SumBytes(c, d) + d.stored)
  }

  ghost predicate IsData(d: Data) {
    && d.id < TWO64 && (d.previous.Some? ==> d.previous.value < TWO64) && (d.time.Some? ==> IsTime(d.time.value))
    && BodySize(d) < TWO64
  }

  /** Snappy: whatever it does, decompressing undoes compressing. */
  datatype Codec = Codec(compress: seq<byte> -> seq<byte>, uncompress: seq<byte> -> Option<seq<byte>>)

  ghost predicate Faithful(codec: Codec) {
    forall b :: codec.uncompress(codec.compress(b)) == Some(b)
  }

  datatype Item = Item(id: nat, flags: nat, time: Option<int>, data: seq<byte>)

  datatype ItemRead = Good(item: Item) | UnknownFlag | DecompressionError | ChecksumMismatch | Malformed | UnknownRecord

  predicate HasPrevious(flags: nat) { flags % 2 == 1 }
  predicate HasTime(flags: nat) { flags / 2 % 2 == 1 }
  predicate HasChecksum(flags: nat) { flags / 4 % 2 == 1 }
  predicate HasSnappy(flags: nat) { flags / 16 % 2 == 1 }
  predicate HasUnknown(flags: nat) { flags / 8 % 2 == 1 || flags >= 32 }

  /** What the flags announce, up to the checksum: previous offset (dropped) and time. */
  function ReadFields(b: seq<byte>): (r: Read<(nat, nat, Option<int>)>)
    ensures !r.Abort? && (r.Got? ==> |r.rest| <= |b|)
  {
    var (id, b1) :- Decode(b);
    var (flags, b2) :- Decode(b1);
    var (_, b3) :- if HasPrevious(flags) then Decode(b2) else Got(0, b2);
    var (time, b4) :- if HasTime(flags) then ReadSomeTime(b3) else Got(None, b3);
    Got((id, flags, time), b4)
  }

  function ReadSomeTime(b: seq<byte>): (r: Read<Option<int>>)
    ensures !r.Abort? && (r.Got? ==> |r.rest| <= |b|)
  {
    var (t, rest) :- ReadTime(b);
    Got(Some(t), rest)
  }

  /** FileReader::Read on the bytes from the block's first one on, which must hold all of it.  The checksum is taken
      over what was read, with zeros fed in the place of the checksum itself. */
  function ReadItem(c: Crc, codec: Codec, verify: bool, b: seq<byte>): ItemRead {
    match ReadHeader(b)
    case Got(head, body) =>
      if head.0 != TYPE_DATA || |body| < head.1 then Malformed
      else ReadBody(c, codec, verify, b[..|b| - |body|], body[..head.1])
    case _ => Malformed
  }

  function ReadBody(c: Crc, codec: Codec, verify: bool, header: seq<byte>, body: seq<byte>): ItemRead {
    match ReadFields(body)
    case Got(fields, rest) => ReadRest(c, codec, verify, fields, rest, header + body[..|body| - |rest|])
    case _ => Malformed
  }

  /** From the checksum on: `rest` is what is left of the block, `before` is what was read of it. */
  function ReadRest(c: Crc, codec: Codec, verify: bool, fields: (nat, nat, Option<int>), rest: seq<byte>,
                    before: seq<byte>): ItemRead {
    var flags := fields.1;
    var checked := HasChecksum(flags);
    if checked && |rest| < 4 then Malformed
    else
      var stored := if checked then rest[4..] else rest;
      if HasUnknown(flags) then UnknownFlag
      else
        var data := if HasSnappy(flags) then codec.uncompress(stored) else Some(stored);
        if data == None then DecompressionError
        else if checked && verify && FromLE(rest[..4]) != Checksum32(c, before + ZEROS + stored) then ChecksumMismatch
        else Good(Item.Item(fields.0, flags, fields.2, data.value))
  }

  lemma FlagBits(d: Data)
    ensures HasPrevious(Flags(d)) == d.previous.Some? && HasTime(Flags(d)) == d.time.Some?
    ensures HasChecksum(Flags(d)) == d.checked && HasSnappy(Flags(d)) == d.packed
    ensures !HasUnknown(Flags(d))
  {
  }

  lemma FieldsRead(d: Data, rest: seq<byte>)
    requires IsData(d)
    ensures ReadFields(Fields(d) + rest) == Got((d.id, Flags(d), d.time), rest)
  {
    FlagBits(d);
    var b4 := rest;
    var b3 := Time(d.time) + b4;
    var b2 := Previous(d.previous) + b3;
    var b1 := Encode(Flags(d)) + b2;
    Assoc(Encode(d.id), Encode(Flags(d)) + (Previous(d.previous) + Time(d.time)), rest);
    Assoc(Encode(Flags(d)), Previous(d.previous) + Time(d.time), rest);
    Assoc(Previous(d.previous), Time(d.time), rest);
    assert Fields(d) + rest == Encode(d.id) + b1;
    DecodeAfterEncode(d.id, b1);
    DecodeAfterEncode(Flags(d), b2);
    if d.previous.Some? {
      DecodeAfterEncode(d.previous.value, b3);
    } else {
      assert b2 == b3;
    }
    if d.time.Some? {
      ReadTimeAfter(d.time.value, b4);
    } else {
      assert b3 == b4;
    }
  }

  /** What a data block's bytes stand for. */
  function Stored(codec: Codec, packed: bool, data: seq<byte>): seq<byte> {
    if packed then codec.compress(data) else data
  }

  /** Reading a written block, with anything following it, gives back identifier, time and payload, and its checksum is
      the one computed anew. */
  lemma ItemAfterData(c: Crc, codec: Codec, verify: bool, d: Data, data: seq<byte>, rest: seq<byte>)
    requires IsData(d) && Faithful(codec) && d.stored == Stored(codec, d.packed, data)
    ensures ReadItem(c, codec, verify, BlockBytes(TYPE_DATA, DataBody(c, d)) + rest)
         == Good(Item.Item(d.id, Flags(d), d.time, data))
  {
    var body := DataBody(c, d);
    var header := Encode(TYPE_DATA) + Encode(|body|);
    HeaderAfterBlock(TYPE_DATA, body, rest);
    Assoc(header, body, rest);
    var b := header + (body + rest);
    assert (body + rest)[..|body|] == body && b[..|header|] == header;
    BodyAfterData(c, codec, verify, d, data);
  }

  lemma BodyAfterData(c: Crc, codec: Codec, verify: bool, d: Data, data: seq<byte>)
    requires IsData(d) && Faithful(codec) && d.stored == Stored(codec, d.packed, data)
    ensures ReadBody(c, codec, verify, Encode(TYPE_DATA) + Encode(BodySize(d)), DataBody(c, d))
         == Good(Item.Item(d.id, Flags(d), d.time, data))
  {
    var body, tail := DataBody(c, d), SumBytes(c, d) + d.stored;
    FieldsRead(d, tail);
    assert body[..|body| - |tail|] == Fields(d);
    RestAfterFields(c, codec, verify, d, data);
  }

  lemma RestAfterFields(c: Crc, codec: Codec, verify: bool, d: Data, data: seq<byte>)
    requires Faithful(codec) && d.stored == Stored(codec, d.packed, data)
    ensures ReadRest(c, codec, verify, (d.id, Flags(d), d.time), SumBytes(c, d) + d.stored, DataStart(d))
         == Good(Item.Item(d.id, Flags(d), d.time, data))
  {
    var tail := SumBytes(c, d) + d.stored;
    FlagBits(d);
    if d.checked {
      Pow256Values();
      LERoundTrip(DataSum(c, d), 4);
      assert tail[..4] == LE(DataSum(c, d), 4) && tail[4..] == d.stored;
    } else {
      assert tail == d.stored;
    }
  }

  // ----- the other kinds of block

  function SchemaBody(id: nat, name: seq<byte>, schema: seq<byte>): seq<byte> {
    Encode(id) + (Encode(0) + (BinaryFormat.Str(name) + schema))
  }

  /** ProcessSchema, for an identifier not known yet: the rest of the block is the schema, which has to parse. */
  function ReadSchema(b: seq<byte>): Read<(nat, seq<byte>, seq<byte>)> {
    var (id, b1) :- Decode(b);
    var (flags, b2) :- Decode(b1);
    if flags != 0 then Abort
    else
      var (name, schema) :- SchemaParser.ReadString(b2);
      if SchemaParser.ParseType(schema, name).Got? then Got((id, name, schema), []) else Abort
  }

  lemma SchemaRead(id: nat, name: seq<byte>, schema: seq<byte>)
    requires id < TWO64 && BinaryFormat.IsString(name)
    ensures ReadSchema(SchemaBody(id, name, schema))
         == if SchemaParser.ParseType(schema, name).Got? then Got((id, name, schema), []) else Abort
    ensures Decode(SchemaBody(id, name, schema)).Got? && Decode(SchemaBody(id, name, schema)).value == id
  {
    var b2 := BinaryFormat.Str(name) + schema;
    DecodeAfterEncode(id, Encode(0) + b2);
    DecodeAfterEncode(0, b2);
    SchemaParser.ReadStringAfterStr(name, schema);
  }

  /** The signature of a seek marker, first byte first. */
  const SIGNATURE: seq<byte> := [0x64, 0x75, 0x86, 0x97, 0xa8, 0xb9, 0xca, 0xfd]

  function Offsets(offsets: seq<(nat, nat)>): seq<byte> {
    if offsets == [] then [] else Encode(offsets[0].0) + (Encode(offsets[0].1) + Offsets(offsets[1..]))
  }

  /** The part of a marker behind its checksum; its first byte is the size of the block's header. */
  function MarkerTail(time: int, offsets: seq<(nat, nat)>): seq<byte> {
    Encode(0) + (LE(Bits64(time), 8) + (Encode(|offsets|) + Offsets(offsets)))
  }

  function MarkerSize(time: int, offsets: seq<(nat, nat)>): nat {
    13 + |MarkerTail(time, offsets)|
  }

  function MarkerHeaderSize(time: int, offsets: seq<(nat, nat)>): nat {
    1 + |Encode(MarkerSize(time, offsets))|
  }

  function MarkerSum(c: Crc, time: int, offsets: seq<(nat, nat)>): (r: nat)
    ensures r < TWO32
  {
    Checksum32(c, Encode(TYPE_SEEK_MARKER) + Encode(MarkerSize(time, offsets)) + SIGNATURE + ZEROS
                  + ([MarkerHeaderSize(time, offsets) % 256] + MarkerTail(time, offsets)))
  }

  function MarkerBody(c: Crc, time: int, offsets: seq<(nat, nat)>): (b: seq<byte>)
    ensures |b| == MarkerSize(time, offsets)
  {
    SIGNATURE + (LE(MarkerSum(c, time, offsets), 4)
                 + ([MarkerHeaderSize(time, offsets) % 256] + MarkerTail(time, offsets)))
  }

  const TRAILER: seq<byte> := [0x54, 0x4c, 0x4f, 0x47, 0x49, 0x44, 0x45, 0x58]

  function IndexRecords(records: seq<IndexRecord>): seq<byte> {
    if records == [] then []
    else Encode(records[0].id) + (LE(Bits64(records[0].schemaAt), 8) + (LE(Bits64(records[0].lastAt), 8) + IndexRecords(records[1..])))
  }

  function IndexHead(records: seq<IndexRecord>): seq<byte> {
    Encode(0) + (Encode(|records|) + IndexRecords(records))
  }

  /** What the writer works out to be the size of the whole index block. */
  function TrailingSize(records: seq<IndexRecord>): nat {
    var n := |IndexHead(records)|;
    n + 1 + |Encode(n + 12)| + 4 + 8
  }

  function IndexBody(records: seq<IndexRecord>): seq<byte> {
    IndexHead(records) + (LE(Wrap32(TrailingSize(records)), 4) + TRAILER)
  }

  /** It is the size of the whole index block. */
  lemma TrailingSizeIsBlockSize(records: seq<IndexRecord>)
    ensures |BlockBytes(TYPE_INDEX, IndexBody(records))| == TrailingSize(records)
  {
  }

  // ----- the log

  function TypeOf(e: Entry): nat {
    match e
    case SchemaEntry(_, _, _) => TYPE_SCHEMA
    case DataEntry(_) => TYPE_DATA
    case MarkerEntry(_, _) => TYPE_SEEK_MARKER
    case IndexEntry(_) => TYPE_INDEX
  }

  function BodyOf(c: Crc, e: Entry): seq<byte> {
    match e
    case SchemaEntry(id, name, schema) => SchemaBody(id, name, schema)
    case DataEntry(d) => DataBody(c, d)
    case MarkerEntry(time, offsets) => MarkerBody(c, time, offsets)
    case IndexEntry(records) => IndexBody(records)
  }

  function EntryBytes(c: Crc, e: Entry): (b: seq<byte>)
    ensures |b| > 1
  {
    BlockBytes(TypeOf(e), BodyOf(c, e))
  }

  /** How blocks become bytes, as far as finding them again goes: never to fewer than two. */
  type Encoding = f: Entry -> seq<byte> | forall e :: |f(e)| > 1 witness (e: Entry) => [0, 0]

  /** `enc` is the encoding of the format. */
  ghost predicate Encodes(c: Crc, enc: Encoding) {
    forall e :: EncodesEntry(c, enc, e)
  }

  ghost predicate EncodesEntry(c: Crc, enc: Encoding, e: Entry) {
    enc(e) == EntryBytes(c, e)
  }

  lemma TheEncoding(c: Crc) returns (enc: Encoding)
    ensures Encodes(c, enc)
  {
    enc := (e: Entry) => EntryBytes(c, e);
  }

  function LogBytes(enc: Encoding, log: seq<Entry>): seq<byte> {
    if log == [] then [] else enc(log[0]) + LogBytes(enc, log[1..])
  }

  /** "TLOG0003" and no flags. */
  const START: seq<byte> := [0x54, 0x4c, 0x4f, 0x47, 0x30, 0x30, 0x30, 0x33, 0]

  function FileBytes(enc: Encoding, log: seq<Entry>): seq<byte> {
    START + LogBytes(enc, log)
  }

  /** Where block `k` starts; for the number of blocks, where the file ends. */
  function Position(enc: Encoding, log: seq<Entry>, k: nat): (p: nat)
    requires k <= |log|
    ensures p >= 9
  {
    9 + |LogBytes(enc, log[..k])|
  }

  lemma {:induction false} LogBytesConcat(enc: Encoding, a: seq<Entry>, b: seq<Entry>)
    ensures LogBytes(enc, a + b) == LogBytes(enc, a) + LogBytes(enc, b)
  {
    if a == [] {
      assert a + b == b && [] + LogBytes(enc, b) == LogBytes(enc, b);
    } else {
      assert (a + b)[1..] == a[1..] + b;
      LogBytesConcat(enc, a[1..], b);
      Assoc(enc(a[0]), LogBytes(enc, a[1..]), LogBytes(enc, b));
    }
  }

  lemma PositionNext(enc: Encoding, log: seq<Entry>, k: nat)
    requires k < |log|
    ensures Position(enc, log, k + 1) == Position(enc, log, k) + |enc(log[k])|
  {
    assert log[..k + 1] == log[..k] + [log[k]];
    LogBytesConcat(enc, log[..k], [log[k]]);
    OneEntry(enc, log[k]);
  }

  lemma OneEntry(enc: Encoding, e: Entry)
    ensures LogBytes(enc, [e]) == enc(e)
  {
    assert [e][1..] == [];
    assert enc(e) + [] == enc(e);
  }

  /** Later blocks start later, by at least two bytes. */
  lemma {:induction false} PositionsGrow(enc: Encoding, log: seq<Entry>, j: nat, k: nat)
    requires j <= k <= |log|
    ensures Position(enc, log, j) + 2 * (k - j) <= Position(enc, log, k)
    decreases k
  {
    if j < k {
      PositionsGrow(enc, log, j, k - 1);
      PositionNext(enc, log, k - 1);
    }
  }

  /** Growing the log moves no block. */
  lemma PositionsStay(enc: Encoding, log: seq<Entry>, more: seq<Entry>, k: nat)
    requires k <= |log|
    ensures Position(enc, log + more, k) == Position(enc, log, k)
  {
    assert (log + more)[..k] == log[..k];
  }

  /** The file from block `k` on starts with that block. */
  lemma FileFrom(enc: Encoding, log: seq<Entry>, k: nat)
    requires k <= |log|
    ensures Position(enc, log, k) <= |FileBytes(enc, log)|
    ensures FileBytes(enc, log)[Position(enc, log, k)..] == LogBytes(enc, log[k..])
    ensures k < |log| ==> LogBytes(enc, log[k..]) == enc(log[k]) + LogBytes(enc, log[k + 1..])
    ensures k == |log| ==> Position(enc, log, k) == |FileBytes(enc, log)|
  {
    assert log == log[..k] + log[k..];
    LogBytesConcat(enc, log[..k], log[k..]);
    Assoc(START, LogBytes(enc, log[..k]), LogBytes(enc, log[k..]));
    var front := START + LogBytes(enc, log[..k]);
    assert (front + LogBytes(enc, log[k..]))[|front|..] == LogBytes(enc, log[k..]);
    if k < |log| {
      assert log[k..][1..] == log[k + 1..];
    }
  }

  /** Fields that fit their widths. */
  ghost predicate IsEntry(c: Crc, e: Entry) {
    && |BodyOf(c, e)| < TWO64
    && match e
       case SchemaEntry(id, name, schema) => id < TWO64 && BinaryFormat.IsString(name)
       case DataEntry(d) => IsData(d)
       case MarkerEntry(time, offsets) => IsTime(time) && forall i :: 0 <= i < |offsets| ==> offsets[i].0 < TWO64 && offsets[i].1 < TWO64
       case IndexEntry(records) => forall i :: 0 <= i < |records| ==> IsIndexRecord(records[i])
  }

  ghost predicate IsIndexRecord(r: IndexRecord) {
    r.id < TWO64 && r.schemaAt < 0x8000_0000_0000_0000 && -1 <= r.lastAt < 0x8000_0000_0000_0000
  }

  /** A header read at the start of block `k` is that block's. */
  lemma HeaderAt(c: Crc, enc: Encoding, log: seq<Entry>, k: nat, file: seq<byte>)
    requires k < |log| && IsEntry(c, log[k]) && Encodes(c, enc) && file == FileBytes(enc, log)
    ensures
      && Position(enc, log, k) <= Position(enc, log, k + 1) <= |file|
      && ReadHeader(file[Position(enc, log, k)..])
         == Got((TypeOf(log[k]), |BodyOf(c, log[k])|), BodyOf(c, log[k]) + file[Position(enc, log, k + 1)..])
  {
    FileFrom(enc, log, k);
    FileFrom(enc, log, k + 1);
    PositionNext(enc, log, k);
    assert EncodesEntry(c, enc, log[k]);
    HeaderIn(file, Position(enc, log, k), Position(enc, log, k + 1), TypeOf(log[k]), BodyOf(c, log[k]));
  }

  lemma HeaderIn(file: seq<byte>, p: nat, q: nat, typ: nat, body: seq<byte>)
    requires p <= q <= |file| && file[p..] == BlockBytes(typ, body) + file[q..]
    requires 1 <= typ <= 5 && |body| < TWO64
    ensures ReadHeader(file[p..]) == Got((typ, |body|), body + file[q..])
  {
    HeaderAfterBlock(typ, body, file[q..]);
  }

  /** At the end of the file there is no header. */
  lemma NoHeaderAtEnd(enc: Encoding, log: seq<Entry>)
    ensures Position(enc, log, |log|) == |FileBytes(enc, log)|
    ensures ReadHeader(FileBytes(enc, log)[Position(enc, log, |log|)..]) == Short
  {
    FileFrom(enc, log, |log|);
    assert log[|log|..] == [];
  }
}
