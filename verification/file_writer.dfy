/** The writer of telemetry logs: blocks put together in a padded buffer, and the bookkeeping that links them. */
module FileWriter {
  import opened Bytes
  import opened Streams
  import opened Varuint
  import opened Framing
  import opened LogFormat
  import opened LogHistory

  /** A seek block period of zero means no seek blocks. */
  datatype Options = Options(writePreviousOffsets: bool, indexBlock: bool, seekBlockPeriod: nat, timestampsSystem: bool)

  const PADDING: nat := 32

  /** What WriteData reserves in front of the payload. */
  function HeaderSize(d: Data): nat {
    |DataStart(d)| + if d.checked then 4 else 0
  }

  /** The reservation fits the padding when the identifier, the previous offset and the body size together take at most
      18 bytes; with everything switched on, only then. */
  lemma HeaderFits(d: Data)
    requires d.previous.Some?
    ensures
      var sizes := |Encode(d.id)| + |Encode(d.previous.value)| + |Encode(BodySize(d))|;
      && (sizes <= 18 ==> HeaderSize(d) <= PADDING)
      && (d.time.Some? && d.checked ==> (HeaderSize(d) <= PADDING <==> sizes <= 18))
  {
    FlagBits(d);
  }

  /** The block a call to WriteData should write. */
  function DataFor(options: Options, codec: Codec, m: Schemas, at: nat, timestamp: Option<int>, now: int, id: nat,
                   data: seq<byte>, compress: bool, checksum: bool): Data
  {
    var previous := if options.writePreviousOffsets then Some(PreviousOffset(m, id, at)) else None;
    var time := if timestamp.Some? then timestamp else if options.timestampsSystem then Some(now) else None;
    var packed := compress && |codec.compress(data)| < |data|;
    Data(id, previous, time, checksum, packed, Stored(codec, packed, data))
  }

  class Writer {
    const options: Options
    const crc: Crc
    const codec: Codec
    const out: OStream
    ghost const enc: Encoding
    var identifierMap: map<seq<byte>, nat>
    var reverseIdentifierMap: map<nat, seq<byte>>
    var nextId: nat
    var schemas: Schemas
    var lastSeekBlock: Option<int>
    ghost var log: seq<Entry>

    /** The file is the log's bytes, the log is genuine and readable, and the bookkeeping is its history. */
    ghost predicate ValidLog()
      reads this, out
    {
      && Encodes(crc, enc)
      && out.data == FileBytes(enc, log) && Genuine(enc, log) && Readable(codec, log)
      && schemas == History(enc, log, |log|)
    }

    /** Names and identifiers are in one-to-one correspondence. */
    ghost predicate ValidNames()
      reads this
    {
      && (forall n :: n in identifierMap ==> identifierMap[n] in reverseIdentifierMap && reverseIdentifierMap[identifierMap[n]] == n)
      && (forall i :: i in reverseIdentifierMap ==> reverseIdentifierMap[i] in identifierMap && identifierMap[reverseIdentifierMap[i]] == i)
    }

    ghost predicate Valid()
      reads this, out
    {
      ValidLog() && ValidNames()
    }

    constructor (options: Options, crc: Crc, codec: Codec)
      ensures Valid() && fresh(out) && log == [] && this.options == options && this.crc == crc && this.codec == codec
      ensures identifierMap == map[] && reverseIdentifierMap == map[] && lastSeekBlock == None
    {
      this.options := options;
      this.crc := crc;
      this.codec := codec;
      ghost var e := TheEncoding(crc);
      enc := e;
      out := new OStream();
      identifierMap := map[];
      reverseIdentifierMap := map[];
      nextId := 1;
      schemas := map[];
      lastSeekBlock := None;
      log := [];
      new;
      out.Write([0x54, 0x4c, 0x4f, 0x47, 0x30, 0x30, 0x30, 0x33]);
      WriteVaruint(out, 0);
    }

    /** The same name always has the same identifier; a new name gets one that nothing uses. */
    method AllocateIdentifier(name: seq<byte>) returns (id: nat)
      requires Valid()
      modifies this`identifierMap, this`reverseIdentifierMap, this`nextId
      ensures Valid() && identifierMap == old(identifierMap)[name := id]
      ensures name in old(identifierMap) ==> id == old(identifierMap)[name] && reverseIdentifierMap == old(reverseIdentifierMap)
      ensures name !in old(identifierMap) ==>
                id !in old(reverseIdentifierMap) && reverseIdentifierMap == old(reverseIdentifierMap)[id := name]
    {
      if name in identifierMap {
        id := identifierMap[name];
        assert identifierMap == identifierMap[name := id];
        return;
      }
      while nextId in reverseIdentifierMap
        invariant Valid() && identifierMap == old(identifierMap) && reverseIdentifierMap == old(reverseIdentifierMap)
        decreases |set i | i in reverseIdentifierMap && i >= nextId|
      {
        ghost var later := set i | i in reverseIdentifierMap && i >= nextId;
        ghost var fewer := set i | i in reverseIdentifierMap && i >= nextId + 1;
        assert nextId in later && fewer == later - {nextId};
        nextId := nextId + 1;
      }
      id := nextId;
      nextId := nextId + 1;
      identifierMap := identifierMap[name := id];
      reverseIdentifierMap := reverseIdentifierMap[id := name];
    }

    /** `None` is the failure of a name that has another identifier already. */
    method ReserveIdentifier(name: seq<byte>, id: nat) returns (r: Option<bool>)
      requires Valid()
      modifies this`identifierMap, this`reverseIdentifierMap
      ensures Valid()
      ensures r == if name in old(identifierMap) then (if old(identifierMap)[name] == id then Some(true) else None)
                   else Some(id !in old(reverseIdentifierMap))
      ensures r == Some(true) ==> identifierMap == old(identifierMap)[name := id]
                                  && reverseIdentifierMap == old(reverseIdentifierMap)[id := name]
      ensures r != Some(true) ==> identifierMap == old(identifierMap) && reverseIdentifierMap == old(reverseIdentifierMap)
    {
      if name in identifierMap {
        if identifierMap[name] == id {
          assert identifierMap == identifierMap[name := id];
          assert reverseIdentifierMap == reverseIdentifierMap[id := name];
          return Some(true);
        }
        return None;
      }
      if id in reverseIdentifierMap {
        return Some(false);
      }
      identifierMap := identifierMap[name := id];
      reverseIdentifierMap := reverseIdentifierMap[id := name];
      r := Some(true);
    }

    /** A block goes to the end of the file. */
    method Append(b: seq<byte>, ghost e: Entry)
      requires Encodes(crc, enc) && out.data == FileBytes(enc, log) && Genuine(enc, log) && Tells(enc, log, e)
      requires b == EntryBytes(crc, e) && Readable(codec, log) && (e.DataEntry? ==> IsStored(codec, e.data))
      modifies out, this`log
      ensures log == old(log) + [e] && out.data == FileBytes(enc, log) && Genuine(enc, log)
      ensures out.data == old(out.data) + b && Readable(codec, log)
      ensures History(enc, log, |log|) == Note(History(enc, old(log), |old(log)|), e, |old(out.data)|)
    {
      assert EncodesEntry(crc, enc, e);
      LogGrows(enc, log, e);
      GenuineGrows(enc, log, e);
      ReadableGrows(codec, log, e);
      out.Write(b);
      log := log + [e];
    }

    /** False is the failure for an identifier that was never handed out. */
    method WriteSchema(id: nat, schema: seq<byte>) returns (ok: bool)
      requires Valid()
      modifies out, this`log, this`schemas
      ensures Valid() && ok == (id in old(reverseIdentifierMap))
      ensures log == if ok then old(log) + [SchemaEntry(id, old(reverseIdentifierMap)[id], schema)] else old(log)
    {
      if id !in reverseIdentifierMap {
        return false;
      }
      var name := reverseIdentifierMap[id];
      schemas := schemas[id := SchemaRecord(name, schema, |out.data|, -1)];
      var block := SchemaBlock(id, name, schema);
      Append(block, SchemaEntry(id, name, schema));
      ok := true;
    }

    method SchemaBlock(id: nat, name: seq<byte>, schema: seq<byte>) returns (block: seq<byte>)
      ensures block == BlockBytes(TYPE_SCHEMA, SchemaBody(id, name, schema))
    {
      var body := new OStream();
      WriteVaruint(body, id);
      WriteVaruint(body, 0);
      WriteVaruint(body, |name|);
      body.Write(name);
      body.Write(schema);
      SchemaPieces(id, name, schema);
      block := Block(TYPE_SCHEMA, body.data);
    }

    /** Type and size in front of a body. */
    method Block(typ: nat, body: seq<byte>) returns (block: seq<byte>)
      ensures block == BlockBytes(typ, body)
    {
      var buffer := new OStream();
      WriteVaruint(buffer, typ);
      WriteVaruint(buffer, |body|);
      buffer.Write(body);
      assert [] + Encode(typ) == Encode(typ);
      block := buffer.data;
    }

    /** `done` was written from `start` on, behind `lead`; the payload behind the padding is untouched. */
    ghost predicate Filling(stream: BufferWriteStream, lead: seq<byte>, done: seq<byte>, payload: seq<byte>)
      reads stream, stream.buffer
    {
      && stream.Valid() && stream.Written() == lead + done && stream.offset <= PADDING <= stream.buffer.Length
      && stream.buffer[PADDING..] == payload
    }

    method PutVaruint(stream: BufferWriteStream, v: nat, ghost lead: seq<byte>, ghost done: seq<byte>,
                      ghost payload: seq<byte>)
      requires Filling(stream, lead, done, payload) && stream.offset + |Encode(v)| <= PADDING
      modifies stream, stream.buffer
      ensures Filling(stream, lead, done + Encode(v), payload)
    {
      ghost var n, at := |Encode(v)|, stream.offset;
      ghost var was := stream.buffer[at + n..];
      SliceOfSuffix(stream.buffer[..], at + n, 0, PADDING - at - n);
      assert was == stream.buffer[..][at + n..];
      assert was[PADDING - at - n..] == stream.buffer[PADDING..];
      FastWriteVaruint(stream, v);
      SliceOfSuffix(stream.buffer[..], at + n, 0, PADDING - at - n);
      assert stream.buffer[..][at + n..] == stream.buffer[at + n..];
      assert stream.buffer[..][PADDING..] == stream.buffer[PADDING..];
      Assoc(lead, done, Encode(v));
    }

    method PutBytes(stream: BufferWriteStream, b: seq<byte>, ghost lead: seq<byte>, ghost done: seq<byte>,
                    ghost payload: seq<byte>)
      requires Filling(stream, lead, done, payload) && stream.offset + |b| <= PADDING
      modifies stream, stream.buffer
      ensures Filling(stream, lead, done + b, payload)
    {
      ghost var n, at := |b|, stream.offset;
      ghost var was := stream.buffer[at + n..];
      SliceOfSuffix(stream.buffer[..], at + n, 0, PADDING - at - n);
      assert was == stream.buffer[..][at + n..];
      assert was[PADDING - at - n..] == stream.buffer[PADDING..];
      stream.Write(b);
      SliceOfSuffix(stream.buffer[..], at + n, 0, PADDING - at - n);
      assert stream.buffer[..][at + n..] == stream.buffer[at + n..];
      assert stream.buffer[..][PADDING..] == stream.buffer[PADDING..];
      Assoc(lead, done, b);
    }

    /** A buffer with the payload behind the padding. */
    method GetBuffer(payload: seq<byte>) returns (buffer: array<byte>)
      ensures fresh(buffer) && buffer.Length == PADDING + |payload| && buffer[PADDING..] == payload
    {
      buffer := new byte[PADDING + |payload|];
      forall i | 0 <= i < |payload| {
        buffer[PADDING + i] := payload[i];
      }
    }

    /** Lays the header of `d` right in front of the payload, which it fills exactly; a checksum is taken over the block
        with zeros in its place, and then put there. */
    method Lay(d: Data) returns (block: seq<byte>)
      requires HeaderSize(d) <= PADDING
      ensures block == EntryBytes(crc, DataEntry(d))
    {
      var headerSize := HeaderSize(d);
      var buffer := GetBuffer(d.stored);
      var start := PADDING - headerSize;
      ghost var lead := buffer[..start];
      var stream := new BufferWriteStream.At(buffer, start);
      assert lead + [] == lead;
      PutFields(stream, lead, d);
      if d.checked {
        PutChecksum(stream, lead, d);
      }
      block := buffer[start..];
      BlockPieces(crc, d);
      LaidOut(buffer[..], start, lead, DataStart(d) + SumBytes(crc, d), d.stored);
    }

    method PutFields(stream: BufferWriteStream, ghost lead: seq<byte>, d: Data)
      requires Filling(stream, lead, [], d.stored) && stream.offset + |DataStart(d)| <= PADDING
      modifies stream, stream.buffer
      ensures Filling(stream, lead, DataStart(d), d.stored) && stream.offset == old(stream.offset) + |DataStart(d)|
    {
      ghost var done := [];
      FieldsLength(d);
      PutVaruint(stream, TYPE_DATA, lead, done, d.stored);
      done := done + Encode(TYPE_DATA);
      PutVaruint(stream, BodySize(d), lead, done, d.stored);
      done := done + Encode(BodySize(d));
      PutVaruint(stream, d.id, lead, done, d.stored);
      done := done + Encode(d.id);
      PutVaruint(stream, Flags(d), lead, done, d.stored);
      done := done + Encode(Flags(d));
      if d.previous.Some? {
        PutVaruint(stream, d.previous.value, lead, done, d.stored);
      }
      done := done + Previous(d.previous);
      if d.time.Some? {
        PutBytes(stream, LE(Bits64(d.time.value), 8), lead, done, d.stored);
      }
      done := done + Time(d.time);
      StartPieces(d);
    }

    method PutChecksum(stream: BufferWriteStream, ghost lead: seq<byte>, d: Data)
      requires Filling(stream, lead, DataStart(d), d.stored) && stream.offset + 4 == PADDING && d.checked
      requires |lead| + HeaderSize(d) == PADDING
      modifies stream, stream.buffer
      ensures Filling(stream, lead, DataStart(d) + SumBytes(crc, d), d.stored) && stream.offset == PADDING
    {
      var position := stream.offset;
      var start := PADDING - HeaderSize(d);
      PutBytes(stream, ZEROS, lead, DataStart(d), d.stored);
      assert stream.buffer[..] == stream.buffer[..PADDING] + stream.buffer[PADDING..];
      Assoc(lead, DataStart(d) + ZEROS, d.stored);
      assert stream.buffer[start..] == DataStart(d) + ZEROS + d.stored by {
        assert stream.buffer[start..] == stream.buffer[..][start..];
      }
      var sum := ProcessBytes(crc, crc.initial, stream.buffer[start..]);
      stream.offset := position;
      assert stream.Written() == lead + DataStart(d) by {
        Assoc(lead, DataStart(d), ZEROS);
        assert stream.buffer[..position] == stream.buffer[..PADDING][..position];
      }
      PutBytes(stream, LE(sum % 0x1_0000_0000, 4), lead, DataStart(d), d.stored);
    }

    /** Writes the block that the arguments ask for, and a seek block when one is due.  False is the failed assertion of
        a header that does not fit; nothing is written then. */
    method WriteData(timestamp: Option<int>, now: int, id: nat, data: seq<byte>, compress: bool,
                     checksum: bool) returns (ok: bool)
      requires Valid()
      modifies out, this`log, this`schemas, this`lastSeekBlock
      ensures Valid()
      ensures
        var d := DataFor(options, codec, old(schemas), |old(out.data)|, timestamp, now, id, data, compress, checksum);
        && ok == (HeaderSize(d) <= PADDING)
        && (if ok then SeekAdded(old(log) + [DataEntry(d)], old(lastSeekBlock), timestamp) else log == old(log))
      ensures ok ==> |log| > |old(log)| && log[|old(log)|].DataEntry?
                     && IsAsAsked(log[|old(log)|].data, timestamp, now, id, data, compress, checksum)
      ensures lastSeekBlock == if ok && options.seekBlockPeriod != 0
                                  && (old(lastSeekBlock) == None || SeekIsDue(old(lastSeekBlock), timestamp))
                               then timestamp else old(lastSeekBlock)
    {
      var d := MakeData(timestamp, now, id, data, compress, checksum);
      ok := HeaderSize(d) <= PADDING;
      assert IsStored(codec, d);
      if ok {
        WriteLaid(d, timestamp);
      }
    }

    /** The block has the fields its caller and the options ask for, and its payload as it is, or compressed if that was
        asked for and makes it shorter; what the previous offset says follows from the log being genuine. */
    ghost predicate IsAsAsked(d: Data, timestamp: Option<int>, now: int, id: nat, data: seq<byte>, compress: bool,
                              checksum: bool)
    {
      && d.id == id && d.checked == checksum && (d.previous.Some? <==> options.writePreviousOffsets)
      && (timestamp.Some? ==> d.time == timestamp)
      && (timestamp == None ==> d.time == if options.timestampsSystem then Some(now) else None)
      && (d.packed <==> compress && |codec.compress(data)| < |data|)
      && d.stored == if d.packed then codec.compress(data) else data
    }

    /** A seek block was added when that was due; what it holds follows from the log being genuine. */
    ghost predicate SeekAdded(was: seq<Entry>, last: Option<int>, timestamp: Option<int>)
      reads this
    {
      if SeekIsDue(last, timestamp) then
        |log| == |was| + 1 && log[..|was|] == was && log[|was|].MarkerEntry? && log[|was|].time == timestamp.value
      else log == was
    }

    method WriteLaid(d: Data, timestamp: Option<int>)
      requires ValidLog() && HeaderSize(d) <= PADDING
      requires d.previous.Some? ==> d.previous.value == PreviousOffset(schemas, d.id, |out.data|)
      requires IsStored(codec, d)
      requires timestamp.Some? ==> d.time == timestamp
      modifies out, this`log, this`schemas, this`lastSeekBlock
      ensures ValidLog()
      ensures SeekAdded(old(log) + [DataEntry(d)], old(lastSeekBlock), timestamp)
      ensures lastSeekBlock == if options.seekBlockPeriod != 0
                                  && (old(lastSeekBlock) == None || SeekIsDue(old(lastSeekBlock), timestamp))
                               then timestamp else old(lastSeekBlock)
    {
      WriteLaidBlock(d);
      MaybeWriteSeekBlock(timestamp);
    }

    method WriteLaidBlock(d: Data)
      requires ValidLog() && HeaderSize(d) <= PADDING
      requires d.previous.Some? ==> d.previous.value == PreviousOffset(schemas, d.id, |out.data|)
      requires IsStored(codec, d)
      modifies out, this`log, this`schemas
      ensures ValidLog() && log == old(log) + [DataEntry(d)] && log[|log| - 1] == DataEntry(d)
      ensures schemas == Note(old(schemas), DataEntry(d), |old(out.data)|)
      ensures |out.data| == |old(out.data)| + |EntryBytes(crc, DataEntry(d))|
    {
      var at := |out.data|;
      var block := Lay(d);
      Append(block, DataEntry(d));
      SetLastPosition(d, at);
    }

    /** schema_[identifier].last_position = at: an unknown identifier gets an empty record. */
    method SetLastPosition(d: Data, at: nat)
      modifies this`schemas
      ensures schemas == Note(old(schemas), DataEntry(d), at)
    {
      if d.id !in schemas {
        schemas := schemas[d.id := SchemaRecord([], [], 0, -1)];
      }
      schemas := schemas[d.id := schemas[d.id].(lastAt := at)];
    }

    method MakeData(timestamp: Option<int>, now: int, id: nat, data: seq<byte>, compress: bool,
                    checksum: bool) returns (d: Data)
      ensures d == DataFor(options, codec, schemas, |out.data|, timestamp, now, id, data, compress, checksum)
    {
      var packed := false;
      var stored := data;
      if compress {
        var compressed := codec.compress(data);
        if |compressed| < |data| {
          packed := true;
          stored := compressed;
        }
      }
      var previous := None;
      if options.writePreviousOffsets {
        previous := Some(PreviousOffset(schemas, id, |out.data|));
      }
      var time := timestamp;
      if timestamp == None && options.timestampsSystem {
        time := Some(now);
      }
      d := Data(id, previous, time, checksum, packed, stored);
    }

    /** After a data block with this timestamp. */
    method MaybeWriteSeekBlock(timestamp: Option<int>)
      requires ValidLog() && log != [] && log[|log| - 1].DataEntry?
      requires timestamp.Some? ==> log[|log| - 1].data.time == timestamp
      modifies out, this`log, this`lastSeekBlock
      ensures ValidLog()
      ensures SeekAdded(old(log), old(lastSeekBlock), timestamp)
      ensures lastSeekBlock == if options.seekBlockPeriod != 0 && (old(lastSeekBlock) == None || SeekIsDue(old(lastSeekBlock), timestamp))
                               then timestamp else old(lastSeekBlock)
    {
      if options.seekBlockPeriod != 0 {
        if lastSeekBlock == None {
          lastSeekBlock := timestamp;
        } else if timestamp.Some? && timestamp.value - lastSeekBlock.value >= options.seekBlockPeriod {
          WriteSeekBlock(timestamp.value);
          lastSeekBlock := timestamp;
        }
      }
    }

    predicate SeekIsDue(last: Option<int>, timestamp: Option<int>) {
      && options.seekBlockPeriod != 0 && last.Some? && timestamp.Some?
      && timestamp.value - last.value >= options.seekBlockPeriod
    }

    method WriteSeekBlock(timestamp: int)
      requires ValidLog() && log != [] && log[|log| - 1].DataEntry? && log[|log| - 1].data.time == Some(timestamp)
      modifies out, this`log
      ensures ValidLog()
      ensures log == old(log) + [MarkerOf(old(schemas), timestamp, |old(out.data)|)]
    {
      var at := |out.data|;
      var offsets := MarkerOffsets(schemas, Ascending(schemas.Keys), at);
      var block := SeekBlock(timestamp, offsets);
      Append(block, MarkerEntry(timestamp, offsets));
    }

    method SeekBlock(time: int, offsets: seq<(nat, nat)>) returns (block: seq<byte>)
      ensures block == BlockBytes(TYPE_SEEK_MARKER, MarkerBody(crc, time, offsets))
    {
      var buffer := new OStream();
      buffer.Write(SIGNATURE);
      buffer.Write([0, 0, 0, 0, 0]);
      WriteVaruint(buffer, 0);
      buffer.Write(LE(Bits64(time), 8));
      WriteVaruint(buffer, |offsets|);
      WriteOffsets(buffer, offsets);
      assert [] + SIGNATURE == SIGNATURE;
      block := LaySeekBlock(buffer, time, offsets);
    }

    method WriteOffsets(buffer: OStream, offsets: seq<(nat, nat)>)
      modifies buffer
      ensures buffer.data == old(buffer.data) + Offsets(offsets)
    {
      ghost var was := buffer.data;
      for i := 0 to |offsets|
        invariant buffer.data + Offsets(offsets[i..]) == was + Offsets(offsets)
      {
        ghost var before := buffer.data;
        WriteVaruint(buffer, offsets[i].0);
        WriteVaruint(buffer, offsets[i].1);
        assert offsets[i..][1..] == offsets[i + 1..];
        ghost var later := Offsets(offsets[i + 1..]);
        Assoc(before, Encode(offsets[i].0), Encode(offsets[i].1) + later);
        Assoc(before + Encode(offsets[i].0), Encode(offsets[i].1), later);
      }
    }

    /** Puts the header in front, its size and then the checksum into their places. */
    method LaySeekBlock(body: OStream, time: int, offsets: seq<(nat, nat)>) returns (block: seq<byte>)
      requires body.data == SIGNATURE + [0, 0, 0, 0, 0] + Encode(0) + LE(Bits64(time), 8) + Encode(|offsets|) + Offsets(offsets)
      ensures block == BlockBytes(TYPE_SEEK_MARKER, MarkerBody(crc, time, offsets))
    {
      MarkerPieces(time, offsets);
      var bodySize := |body.data|;
      var headerSize := 1 + |Encode(bodySize)|;
      ghost var head, tail := Encode(TYPE_SEEK_MARKER) + Encode(bodySize), MarkerTail(time, offsets);
      var header := new OStream();
      WriteVaruint(header, TYPE_SEEK_MARKER);
      WriteVaruint(header, bodySize);
      assert header.data == head;
      var buffer := header.data + body.data;
      var crcPos := headerSize + 8;
      buffer := buffer[crcPos + 4 := headerSize % 256];
      Unsummed(head, tail, headerSize % 256);
      var sum := ProcessBytes(crc, crc.initial, buffer);
      block := buffer[..crcPos] + LE(sum % 0x1_0000_0000, 4) + buffer[crcPos + 4..];
      Summed(head, [headerSize % 256] + tail, LE(sum % 0x1_0000_0000, 4));
    }

    /** The index of everything, with its own size near the end. */
    method WriteIndex()
      requires Valid()
      modifies out, this`log
      ensures Valid() && log == old(log) + [IndexOfAll(old(schemas))]
    {
      var records := IndexOf(schemas, Ascending(schemas.Keys));
      var block := IndexBlock(records);
      Append(block, IndexEntry(records));
    }

    method IndexBlock(records: seq<IndexRecord>) returns (block: seq<byte>)
      ensures block == BlockBytes(TYPE_INDEX, IndexBody(records))
    {
      var head := IndexHeadBytes(records);
      var trailingSize := Wrap32(|head| + 1 + |Encode(|head| + 4 + 8)| + 4 + 8);
      block := Block(TYPE_INDEX, head + (LE(trailingSize, 4) + TRAILER));
    }

    method IndexHeadBytes(records: seq<IndexRecord>) returns (head: seq<byte>)
      ensures head == IndexHead(records)
    {
      var buffer := new OStream();
      WriteVaruint(buffer, 0);
      WriteVaruint(buffer, |records|);
      WriteRecords(buffer, records);
      Pieces3(Encode(0), Encode(|records|), IndexRecords(records));
      head := buffer.data;
    }

    method WriteRecords(buffer: OStream, records: seq<IndexRecord>)
      modifies buffer
      ensures buffer.data == old(buffer.data) + IndexRecords(records)
    {
      ghost var was := buffer.data;
      for i := 0 to |records|
        invariant buffer.data + IndexRecords(records[i..]) == was + IndexRecords(records)
      {
        ghost var before := buffer.data;
        var r := records[i];
        WriteVaruint(buffer, r.id);
        buffer.Write(LE(Bits64(r.schemaAt), 8));
        buffer.Write(LE(Bits64(r.lastAt), 8));
        assert records[i..][1..] == records[i + 1..];
        ghost var later := IndexRecords(records[i + 1..]);
        ghost var p, q := LE(Bits64(r.schemaAt), 8), LE(Bits64(r.lastAt), 8);
        Assoc(before, Encode(r.id), p + (q + later));
        Assoc(before + Encode(r.id), p, q + later);
        Assoc(before + Encode(r.id) + p, q, later);
      }
    }

    method Close()
      requires Valid()
      modifies out, this`log, this`lastSeekBlock
      ensures Valid() && log == if options.indexBlock then old(log) + [IndexOfAll(old(schemas))] else old(log)
      ensures lastSeekBlock == None
    {
      if options.indexBlock {
        WriteIndex();
      }
      lastSeekBlock := None;
    }
  }

  lemma SchemaPieces(id: nat, name: seq<byte>, schema: seq<byte>)
    ensures [] + Encode(id) + Encode(0) + Encode(|name|) + name + schema == SchemaBody(id, name, schema)
  {
  }

  /** The size of the header goes into its place. */
  lemma Unsummed(head: seq<byte>, tail: seq<byte>, size: byte)
    ensures (head + (SIGNATURE + (ZEROS + ([0] + tail))))[|head| + 12 := size] == head + SIGNATURE + ZEROS + ([size] + tail)
  {
  }

  /** So does the checksum. */
  lemma Summed(head: seq<byte>, behind: seq<byte>, sum: seq<byte>)
    requires |sum| == 4
    ensures
      var buffer := head + SIGNATURE + ZEROS + behind;
      buffer[..|head| + 8] + sum + buffer[|head| + 12..] == head + (SIGNATURE + (sum + behind))
  {
  }

  lemma LaidOut(buffer: seq<byte>, start: nat, lead: seq<byte>, header: seq<byte>, payload: seq<byte>)
    requires |lead| == start && start + |header| == PADDING <= |buffer|
    requires buffer[..PADDING] == lead + header && buffer[PADDING..] == payload
    ensures buffer[start..] == header + payload
  {
    assert buffer == buffer[..PADDING] + buffer[PADDING..];
    Assoc(lead, header, payload);
  }

  lemma FieldsLength(d: Data)
    ensures |DataStart(d)| == 1 + |Encode(BodySize(d))| + |Encode(d.id)| + |Encode(Flags(d))| + |Previous(d.previous)| + |Time(d.time)|
  {
  }

  lemma StartPieces(d: Data)
    ensures [] + Encode(TYPE_DATA) + Encode(BodySize(d)) + Encode(d.id) + Encode(Flags(d)) + Previous(d.previous) + Time(d.time)
         == DataStart(d)
  {
    var a := [] + Encode(TYPE_DATA) + Encode(BodySize(d));
    Assoc(a + Encode(d.id) + Encode(Flags(d)), Previous(d.previous), Time(d.time));
    Assoc(a + Encode(d.id), Encode(Flags(d)), Previous(d.previous) + Time(d.time));
    Assoc(a, Encode(d.id), Encode(Flags(d)) + (Previous(d.previous) + Time(d.time)));
  }

  lemma BlockPieces(c: Crc, d: Data)
    ensures DataStart(d) + SumBytes(c, d) + d.stored == EntryBytes(c, DataEntry(d))
  {
    Assoc(DataStart(d), SumBytes(c, d), d.stored);
    Assoc(Encode(TYPE_DATA) + Encode(BodySize(d)), Fields(d), SumBytes(c, d) + d.stored);
  }

  lemma MarkerPieces(time: int, offsets: seq<(nat, nat)>)
    ensures
      var body: seq<byte> := SIGNATURE + [0, 0, 0, 0, 0] + Encode(0) + LE(Bits64(time), 8) + Encode(|offsets|) + Offsets(offsets);
      body == SIGNATURE + (ZEROS + ([0] + MarkerTail(time, offsets))) && |body| == MarkerSize(time, offsets)
  {
    var a: seq<byte> := [0, 0, 0, 0, 0];
    assert ZEROS + [0] == a;
    var t, n, o := LE(Bits64(time), 8), Encode(|offsets|), Offsets(offsets);
    Assoc(SIGNATURE + a + Encode(0) + t, n, o);
    Assoc(SIGNATURE + a + Encode(0), t, n + o);
    Assoc(SIGNATURE + a, Encode(0), t + (n + o));
    Assoc(SIGNATURE, a, MarkerTail(time, offsets));
    Assoc(ZEROS, [0], MarkerTail(time, offsets));
  }
}
