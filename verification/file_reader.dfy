/** The reader of telemetry logs: scanning, the trailing index, single items, and seeking by time. */
module FileReader {
  import opened Bytes
  import opened Streams
  import opened Varuint
  import opened Framing
  import opened LogFormat
  import opened SeekMarker
  import opened LogHistory
  import opened LogScan
  import opened ItemFilter
  import BinaryFormat
  import SchemaParser
  import SchemaReader
  import ElementDeque

  /** Every field of every block fits its width. */
  ghost predicate AllFit(c: Crc, log: seq<Entry>) {
    forall k: nat :: k < |log| ==> FitsAt(c, log, k)
  }

  ghost predicate FitsAt(c: Crc, log: seq<Entry>, k: nat)
    requires k < |log|
  {
    IsEntry(c, log[k])
  }

  /** Whatever looks like a seek marker, signature and all, is one that was written; and this also when it is looked at
      one byte late, as the search does behind a signature that was no marker's. */
  ghost predicate Unforged(blocks: Blocks, enc: Encoding, log: seq<Entry>, file: seq<byte>) {
    forall p: nat :: IsSignature(file, p) ==> UnforgedAt(blocks, enc, log, file, p)
  }

  ghost predicate UnforgedAt(blocks: Blocks, enc: Encoding, log: seq<Entry>, file: seq<byte>, p: nat) {
    && IsGenuine(enc, log, Evaluate(blocks, file, p + 7, p + 8))
    && IsGenuine(enc, log, Evaluate(blocks, file, p + 8, p + 8))
  }

  ghost predicate IsGenuine(enc: Encoding, log: seq<Entry>, r: Evaluated) {
    match r
    case NoMarker => true
    case Trouble => false
    case Marker(time, index, last) => IsMarkerOf(enc, log, time, index, last)
  }

  ghost predicate IsMarkerOf(enc: Encoding, log: seq<Entry>, time: int, index: nat, last: map<nat, int>) {
    exists k: nat :: k < |log| && log[k].MarkerEntry? && log[k].time == time
                     && index == Position(enc, log, k) && last == LastOf(log[k].offsets, index)
  }

  /** Nothing is forged for a reader that knows every record of the log. */
  ghost predicate NoForgery(c: Crc, enc: Encoding, log: seq<Entry>, file: seq<byte>) {
    Unforged(BlocksIn(c, file, Ids(LearnAll([], log, 0, |log|))), enc, log, file)
  }

  const MIN_SPACING := 65536

  datatype IndexUse = Used | Ignored | Failed

  class Reader {
    const crc: Crc
    const codec: Codec
    const verifyChecksums: bool
    const stream: BufferReadStream
    ghost const log: seq<Entry>
    ghost const enc: Encoding
    var records: seq<Record>
    var finalItem: int
    var hasIndex: bool
    var allRecordsFound: bool

    ghost predicate Valid()
      reads this, stream
    {
      stream.Valid() && Encodes(crc, enc) && stream.buffer == FileBytes(enc, log) && AllFit(crc, log)
    }

    /** A log that was written. */
    constructor (crc: Crc, codec: Codec, verifyChecksums: bool, file: seq<byte>,
                 ghost enc: Encoding, ghost log: seq<Entry>)
      requires Encodes(crc, enc) && file == FileBytes(enc, log) && AllFit(crc, log)
      ensures Valid() && fresh(stream) && this.log == log && this.enc == enc && this.crc == crc && this.codec == codec
      ensures records == [] && finalItem == -1 && !hasIndex && !allRecordsFound
    {
      this.crc := crc;
      this.codec := codec;
      this.verifyChecksums := verifyChecksums;
      stream := new BufferReadStream(file);
      this.enc := enc;
      this.log := log;
      records := [];
      finalItem := -1;
      hasIndex := false;
      allRecordsFound := false;
    }

    method SeekTo(index: nat)
      requires stream.Valid() && index <= |stream.buffer|
      modifies stream
      ensures stream.Valid() && stream.offset == index
    {
      stream.offset := index;
    }

    /** `None` at the end of the file; not `ok` for a type out of range or a missing size. */
    method ReadHeaderOf() returns (header: Option<(nat, nat)>, ok: bool)
      requires stream.Valid()
      modifies stream
      ensures stream.Valid()
      ensures match ReadHeader(old(stream.Rest()))
              case Got(v, rest) => ok && header == Some(v) && stream.Rest() == rest && stream.offset == |stream.buffer| - |rest|
              case Short => ok && header == None
              case Abort => !ok
    {
      var maybeType := ReadVaruint(stream);
      if maybeType == None {
        return None, true;
      }
      if maybeType.value > 5 || maybeType.value == 0 {
        return None, false;
      }
      var size := ReadVaruint(stream);
      if size == None {
        return None, false;
      }
      return Some((maybeType.value, size.value)), true;
    }

    /** Known identifiers are left as they are, and then the filter is not told either.  Not `ok` is the exception for
        bytes that are no schema: nothing is learned. */
    method ProcessSchema(size: nat, filter: Filter, ghost e: Entry) returns (ok: bool, noticed: Filter)
      requires stream.Valid() && e.SchemaEntry? && e.id < TWO64 && BinaryFormat.IsString(e.name)
      requires size <= |stream.Rest()| && stream.Rest()[..size] == SchemaBody(e.id, e.name, e.schema)
      modifies this`records
      ensures ok == Learnable(old(records), e)
      ensures if ok then records == Learn(old(records), e) && noticed == Noticed(filter, old(records), e)
              else records == old(records)
    {
      ok, noticed := true, filter;
      var block := new BufferReadStream(stream.buffer[stream.offset..stream.offset + size]);
      assert block.Rest() == stream.Rest()[..size];
      SchemaChain(e.id, e.name, e.schema);
      var identifier := ReadVaruint(block);
      if Find(records, identifier.value).Some? {
        return;
      }
      var flags := ReadVaruint(block);
      var name, schema := ReadNamed(block, e.name, e.schema);
      ok := ParseSchema(schema, name);
      if !ok {
        return;
      }
      records := records + [Record(identifier.value, name, schema)];
      if filter.Chosen? && name in filter.unknown {
        noticed := Chosen(filter.all, filter.unknown - {name}, filter.ids + {identifier.value});
      }
    }

    /** The schema parser's constructor: it fails on what is no schema. */
    method ParseSchema(schema: seq<byte>, name: seq<byte>) returns (ok: bool)
      ensures ok == SchemaParser.ParseType(schema, name).Got?
    {
      var bytes := new BufferReadStream(schema);
      assert bytes.Rest() == schema;
      var elements := new ElementDeque.Deque();
      var root := SchemaReader.ReadType(bytes, name, elements, None);
      ok := root.Fine?;
    }

    /** A string, then all that is left. */
    method ReadNamed(block: BufferReadStream, ghost itsName: seq<byte>, ghost itsSchema: seq<byte>)
      returns (name: seq<byte>, schema: seq<byte>)
      requires block.Valid() && Decode(block.Rest()) == Got(|itsName|, itsName + itsSchema)
      modifies block
      ensures name == itsName && schema == itsSchema
    {
      var nameSize := ReadVaruint(block);
      name := block.Read(nameSize.value);
      Split(itsName, itsSchema, name, block.Rest());
      schema := block.Read(block.Remaining());
      assert schema + block.Rest() == itsSchema && |block.Rest()| == 0;
    }

    /** One block from where the stream stands: its type, 0 at the end of the file, where the next one starts, and
        whether it holds data that the filter lets through.  Not `ok` is the exception of a schema that does not
        parse. */
    method ReadBlock(filter: Filter, ghost i: nat)
      returns (ok: bool, typ: nat, next: nat, passes: bool, noticed: Filter)
      requires Valid() && i <= |log| && stream.offset == Position(enc, log, i)
      modifies stream, this`records
      ensures Valid()
      ensures i == |log| ==> ok && typ == 0 && records == old(records)
      ensures i < |log| ==> ok == Learnable(old(records), log[i])
      ensures i < |log| && !ok ==> records == old(records)
      ensures i < |log| && ok ==>
                typ == TypeOf(log[i]) && next == Position(enc, log, i + 1) <= |stream.buffer|
                && records == Learn(old(records), log[i])
                && passes == Passes(filter, log[i]) && noticed == Noticed(filter, old(records), log[i])
    {
      ok, passes, noticed := true, false, filter;
      if i == |log| {
        NoHeaderAtEnd(enc, log);
      } else {
        assert FitsAt(crc, log, i);
        HeaderAt(crc, enc, log, i, stream.buffer);
      }
      var header, fine := ReadHeaderOf();
      assert fine;
      if header == None {
        return true, 0, 0, false, filter;
      }
      var size := header.value.1;
      typ := header.value.0;
      next := stream.offset + size;
      ghost var body := BodyOf(crc, log[i]);
      assert stream.Rest()[..size] == body;
      if typ == TYPE_SCHEMA {
        ok, noticed := ProcessSchema(size, filter, log[i]);
      } else if typ == TYPE_DATA {
        var identifier := ReadIdentifier(log[i].data, stream.buffer[next..]);
        passes := Checks(filter, identifier);
      }
    }

    method ReadIdentifier(ghost d: Data, ghost later: seq<byte>) returns (id: nat)
      requires stream.Valid() && d.id < TWO64 && stream.Rest() == DataBody(crc, d) + later
      modifies stream
      ensures stream.Valid() && id == d.id
    {
      DataStartsWithId(crc, d, later);
      var identifier := ReadVaruint(stream);
      id := identifier.value;
    }

    /** Behind the block it stops at. */
    ghost function Behind(j: nat): nat {
      if j < |log| then j + 1 else j
    }

    /** Reads on from a block: learns schemas on the way, and stops at the next data block that the filter lets through,
        or fails at the first schema block before it that is new and does not parse. */
    method ReadUntil(start: nat, filter: Filter, ghost k: nat)
      returns (ok: bool, at: int, next: int, noticed: Filter, ghost stop: nat)
      requires Valid() && k <= |log| && start == Position(enc, log, k)
      modifies stream, this`records, this`finalItem
      ensures Valid() && k <= stop <= Behind(NextPassing(log, old(records), filter, k))
      ensures records == LearnAll(old(records), log, k, stop)
      ensures finalItem == Furthest(enc, log, k, stop, old(finalItem))
      ensures ok == LearnsAll(old(records), log, k, Behind(NextPassing(log, old(records), filter, k)))
      ensures !ok ==> stop < |log| && !Learnable(records, log[stop])
      ensures ok ==>
        var j := NextPassing(log, old(records), filter, k);
        && stop == Behind(j)
        && at == (if j < |log| then Position(enc, log, j) else -1)
        && next == (if j < |log| then Position(enc, log, j + 1) else -1)
        && noticed == NoticedAll(filter, old(records), log, k, stop)
    {
      FileFrom(enc, log, k);
      SeekTo(start);
      stop, noticed := k, filter;
      ghost var rs, furthest := records, finalItem;
      SetsOut(filter, k);
      while true
        invariant Valid() && k <= stop <= |log| && stream.offset == Position(enc, log, stop)
        invariant Underway(rs, furthest, filter, k, stop, noticed)
        decreases |log| - stop
      {
        var here := stream.offset;
        var typ, after, passes, heard;
        ok, typ, after, passes, heard := PassBlock(here, noticed, rs, furthest, filter, k, stop);
        if !ok || typ == 0 {
          return ok, -1, -1, noticed, stop;
        }
        noticed, stop := heard, stop + 1;
        if passes {
          return true, here, after, noticed, stop;
        }
      }
    }

    /** Up to block `i` nothing passed and nothing failed. */
    ghost predicate Underway(rs: seq<Record>, furthest: int, filter: Filter, k: nat, i: nat, noticed: Filter)
      requires k <= i <= |log|
      reads this
    {
      && records == LearnAll(rs, log, k, i) && finalItem == Furthest(enc, log, k, i, furthest)
      && noticed == NoticedAll(filter, rs, log, k, i) && LearnsAll(rs, log, k, i)
      && NextPassing(log, rs, filter, k) == NextPassing(log, records, noticed, i)
    }

    lemma SetsOut(filter: Filter, k: nat)
      requires k <= |log|
      ensures Underway(records, finalItem, filter, k, k, filter)
    {
    }

    /** One block on the way, up to its end unless it passes. */
    method PassBlock(here: nat, noticed: Filter, ghost rs: seq<Record>, ghost furthest: int, ghost filter: Filter,
                     ghost k: nat, ghost i: nat)
      returns (ok: bool, typ: nat, after: nat, passes: bool, heard: Filter)
      requires Valid() && k <= i <= |log| && here == stream.offset == Position(enc, log, i)
      requires Underway(rs, furthest, filter, k, i, noticed)
      modifies stream, this`records, this`finalItem
      ensures Valid() && i <= Behind(NextPassing(log, rs, filter, k))
      ensures !ok ==> i < |log| && !Learnable(records, log[i])
      ensures !ok ==> !LearnsAll(rs, log, k, Behind(NextPassing(log, rs, filter, k)))
      ensures !ok || i == |log| ==> records == old(records) && finalItem == old(finalItem)
      ensures i == |log| ==> ok && typ == 0
      ensures ok && i < |log| ==>
                && typ != 0 && after == Position(enc, log, i + 1) <= |stream.buffer|
                && (if passes then NextPassing(log, rs, filter, k) == i && LearnsAll(rs, log, k, i + 1)
                                   && records == LearnAll(rs, log, k, i + 1)
                                   && finalItem == Furthest(enc, log, k, i + 1, furthest)
                                   && heard == NoticedAll(filter, rs, log, k, i + 1)
                    else stream.offset == after && Underway(rs, furthest, filter, k, i + 1, heard))
    {
      ok, typ, after, passes, heard := ReadBlock(noticed, i);
      if !ok {
        StuckAt(rs, filter, k, i);
      } else if typ != 0 {
        PassingStep(log, rs, filter, k, i);
        FurthestStep(enc, log, k, i, furthest);
        if typ == TYPE_DATA {
          finalItem := Max(finalItem, here);
        }
        if !passes {
          SeekTo(after);
        }
      }
    }

    /** What cannot be learned comes before the next stop. */
    lemma StuckAt(rs: seq<Record>, filter: Filter, k: nat, i: nat)
      requires k <= i < |log| && !Learnable(LearnAll(rs, log, k, i), log[i])
      requires NextPassing(log, rs, filter, k)
            == NextPassing(log, LearnAll(rs, log, k, i), NoticedAll(filter, rs, log, k, i), i)
      ensures i < NextPassing(log, rs, filter, k) && !LearnsAll(rs, log, k, Behind(NextPassing(log, rs, filter, k)))
    {
      PassingStep(log, rs, filter, k, i);
      NoneLearnsPast(rs, k, i, Behind(NextPassing(log, rs, filter, k)));
    }

    lemma NoneLearnsPast(rs: seq<Record>, k: nat, i: nat, end: nat)
      requires k <= i < end <= |log| && !Learnable(LearnAll(rs, log, k, i), log[i])
      ensures !LearnsAll(rs, log, k, end)
    {
      LearnAllSplit(rs, log, k, i + 1, end);
    }

    /** Succeeds if and only if every schema block that is new to the reader parses. */
    method FullScan() returns (ok: bool, ghost stop: nat)
      requires Valid()
      modifies stream, this`records, this`finalItem, this`allRecordsFound
      ensures Valid() && stop <= |log| && ok == LearnsAll(old(records), log, 0, |log|)
      ensures records == LearnAll(old(records), log, 0, stop)
      ensures finalItem == Furthest(enc, log, 0, stop, old(finalItem))
      ensures if ok then stop == |log| && allRecordsFound
              else stop < |log| && !Learnable(records, log[stop]) && allRecordsFound == old(allRecordsFound)
    {
      NothingPasses(log, records, 0);
      var at, next, noticed;
      ok, at, next, noticed, stop := ReadUntil(9, Filter.Nothing, 0);
      if ok {
        allRecordsFound := true;
      }
    }

    // ----- items by record name

    /** items(): names that are known already, and those still to be learned. */
    method FilterFor(names: seq<seq<byte>>) returns (f: Filter)
      ensures f == FilterOf(records, names)
    {
      var unknown: set<seq<byte>>, ids: set<nat> := {}, {};
      for i := 0 to |names|
        invariant unknown == set n | n in names[..i] && Named(records, n) == None
        invariant ids == set n | n in names[..i] && Named(records, n).Some? :: Named(records, n).value
      {
        assert names[..i + 1] == names[..i] + [names[i]];
        var found := Named(records, names[i]);
        if found.Some? {
          assert names[i] in names[..i + 1];
          ids := ids + {found.value};
        } else {
          unknown := unknown + {names[i]};
        }
      }
      assert names[..|names|] == names;
      f := Chosen(names == [], unknown, ids);
    }

    /** On to the next block that the filter lets through, from block `k`. */
    method Onward(start: nat, filter: Filter, ghost k: nat)
      returns (ok: bool, index: int, noticed: Filter, ghost j: nat)
      requires Valid() && k <= |log| && start == Position(enc, log, k)
      modifies stream, this`records, this`finalItem
      ensures Valid() && k <= j <= |log| && ok == LearnsAll(old(records), log, k, j)
      ensures ok ==> records == LearnAll(old(records), log, k, j) && StandsAt(index, noticed, j)
      ensures ok ==> VisitedFrom(enc, log, old(records), filter, k) == VisitedFrom(enc, log, records, noticed, j)
    {
      j := NextPassing(log, records, filter, k);
      VisitedOnward(enc, log, records, filter, k);
      var next;
      ghost var stop;
      ok, index, next, noticed, stop := ReadUntil(start, filter, k);
    }

    /** An iterator's place: a block that the filter lets through, or the end. */
    ghost predicate StandsAt(index: int, filter: Filter, j: nat) {
      if j < |log| then index == Position(enc, log, j) && Passes(filter, log[j]) else index == -1
    }

    /** ItemIterator's increment: over the block it stands on, then on to the next. */
    method Increment(index: nat, filter: Filter, ghost j: nat)
      returns (ok: bool, advanced: int, noticed: Filter, ghost n: nat)
      requires Valid() && j < |log| && StandsAt(index, filter, j)
      modifies stream, this`records, this`finalItem
      ensures Valid() && j < n <= |log| && ok == LearnsAll(old(records), log, j, n)
      ensures ok ==> records == LearnAll(old(records), log, j, n) && StandsAt(advanced, noticed, n)
      ensures ok ==>
        VisitedFrom(enc, log, old(records), filter, j) == [index] + VisitedFrom(enc, log, records, noticed, n)
    {
      ghost var rs := records;
      var fine, first, after, same;
      ghost var stop;
      assert NextPassing(log, records, filter, j) == j;
      OneLearned(rs, filter, j);
      fine, first, after, same, stop := ReadUntil(index, filter, j);
      ok, advanced, noticed, n := Onward(after, same, j + 1);
      LearnAllSplit(rs, log, j, j + 1, n);
    }

    /** A data block teaches nothing. */
    lemma OneLearned(rs: seq<Record>, filter: Filter, j: nat)
      requires j < |log| && log[j].DataEntry?
      ensures LearnAll(rs, log, j, j + 1) == rs && LearnsAll(rs, log, j, j + 1)
      ensures NoticedAll(filter, rs, log, j, j + 1) == filter
    {
      assert LearnAll(rs, log, j, j) == rs;
    }

    /** All items that a filter lets through, in the order of the log; at its end the reader knows every record.  It
        gets there if and only if every schema block that is new to the reader parses. */
    method Iterate(filter: Filter) returns (ok: bool, visited: seq<nat>)
      requires Valid()
      modifies stream, this`records, this`finalItem
      ensures Valid() && ok == LearnsAll(old(records), log, 0, |log|)
      ensures ok ==> records == LearnAll(old(records), log, 0, |log|)
      ensures ok ==> visited == VisitedFrom(enc, log, old(records), filter, 0)
    {
      ghost var rs := records;
      ghost var all := VisitedFrom(enc, log, rs, filter, 0);
      visited := [];
      assert Position(enc, log, 0) == 9;
      var index: int, noticed;
      ghost var j: nat;
      ok, index, noticed, j := Onward(9, filter, 0);
      LearnAllSplit(rs, log, 0, j, |log|);
      if !ok {
        return;
      }
      assert [] + VisitedFrom(enc, log, records, noticed, j) == VisitedFrom(enc, log, records, noticed, j);
      while index != -1
        invariant Valid() && j <= |log| && StandsAt(index, noticed, j) && ok
        invariant records == LearnAll(rs, log, 0, j) && LearnsAll(rs, log, 0, j)
        invariant all == visited + VisitedFrom(enc, log, records, noticed, j)
        decreases |log| - j
      {
        ghost var before, here := visited, j;
        visited := visited + [index];
        ok, index, noticed, j := Increment(index, noticed, j);
        LearnAllSplit(rs, log, 0, here, j);
        LearnAllSplit(rs, log, 0, j, |log|);
        if !ok {
          return;
        }
        Assoc(before, [visited[|before|]], VisitedFrom(enc, log, records, noticed, j));
      }
      assert visited + [] == visited;
    }

    /** All items of the records with the given names, of all records for none. */
    method ItemsOf(names: seq<seq<byte>>) returns (ok: bool, visited: seq<nat>)
      requires Valid() && Orderly(enc, log) && Unambiguous(LearnAll(records, log, 0, |log|))
      modifies stream, this`records, this`finalItem
      ensures Valid() && ok == LearnsAll(old(records), log, 0, |log|)
      ensures ok ==> records == LearnAll(old(records), log, 0, |log|)
      ensures ok ==> visited == SelectedFrom(enc, log, names, records, 0)
    {
      var filter := FilterFor(names);
      VisitsSelectedIff(enc, log, records, records, names, LearnAll(records, log, 0, |log|), 0);
      ok, visited := Iterate(filter);
    }

    /** The fields of a data block up to its checksum. */
    method ReadFieldsOf(body: seq<byte>) returns (r: Option<(nat, nat, Option<int>)>, at: nat)
      ensures match ReadFields(body)
              case Got(v, rest) => r == Some(v) && at <= |body| && rest == body[at..]
              case _ => r == None
    {
      var block := new BufferReadStream(body);
      assert block.Rest() == body;
      r := ReadFieldsFrom(block);
      at := block.offset;
    }

    method ReadFieldsFrom(block: BufferReadStream) returns (r: Option<(nat, nat, Option<int>)>)
      requires block.Valid()
      modifies block
      ensures block.Valid()
      ensures match ReadFields(old(block.Rest()))
              case Got(v, rest) => r == Some(v) && block.Rest() == rest
              case _ => r == None
    {
      r := None;
      var identifier := ReadVaruint(block);
      if identifier == None {
        return;
      }
      var flags := ReadVaruint(block);
      if flags == None {
        return;
      }
      if HasPrevious(flags.value) {
        var discarded := ReadVaruint(block);
        if discarded == None {
          return;
        }
      }
      var time: Option<int> := None;
      if HasTime(flags.value) {
        var bits := block.ReadScalar(8);
        if bits == None {
          return;
        }
        time := Some(Signed64(bits.value));
      }
      r := Some((identifier.value, flags.value, time));
    }

    /** One item, of a known record. */
    method Read(index: nat) returns (r: ItemRead)
      requires stream.Valid() && index <= |stream.buffer|
      modifies stream
      ensures stream.Valid()
      ensures r == OfKnown(records, ReadItem(crc, codec, verifyChecksums, stream.buffer[index..]))
    {
      r := ReadAny(index);
      if r.Good? && Find(records, r.item.id) == None {
        return UnknownRecord;
      }
    }

    /** One item, its checksum taken while its bytes are read, with zeros in the place of the checksum itself. */
    method ReadAny(index: nat) returns (r: ItemRead)
      requires stream.Valid() && index <= |stream.buffer|
      modifies stream
      ensures stream.Valid()
      ensures r == ReadItem(crc, codec, verifyChecksums, stream.buffer[index..])
    {
      SeekTo(index);
      ghost var b := stream.Rest();
      assert b == stream.buffer[index..];
      var header, ok := ReadHeaderOf();
      if !ok || header == None || header.value.0 != TYPE_DATA || stream.Remaining() < header.value.1 {
        NoItem(crc, codec, verifyChecksums, b);
        return Malformed;
      }
      var at, size := stream.offset, header.value.1;
      ItemIsBody(crc, codec, verifyChecksums, stream.buffer, index, at, size);
      r := ReadBlockBody(stream.buffer[index..at], stream.buffer[at..at + size]);
    }

    method ReadBlockBody(header: seq<byte>, body: seq<byte>) returns (r: ItemRead)
      ensures r == ReadBody(crc, codec, verifyChecksums, header, body)
    {
      var fields, at := ReadFieldsOf(body);
      if fields == None {
        return Malformed;
      }
      r := ReadStored(fields.value, body[at..], header + body[..at]);
    }

    method ReadStored(fields: (nat, nat, Option<int>), rest: seq<byte>, before: seq<byte>) returns (r: ItemRead)
      ensures r == ReadRest(crc, codec, verifyChecksums, fields, rest, before)
    {
      var block := new BufferReadStream(rest);
      assert block.Rest() == rest;
      var flags := fields.1;
      var state := ProcessBytes(crc, crc.initial, before);
      var checksum: Option<nat> := None;
      if HasChecksum(flags) {
        state := ProcessBytes(crc, state, ZEROS);
        FoldConcat(crc, crc.initial, before, ZEROS);
        checksum := block.ReadScalar(4);
        if checksum == None {
          return Malformed;
        }
      }
      if HasUnknown(flags) {
        return UnknownFlag;
      }
      ghost var left := block.Rest();
      var stored := block.Read(block.Remaining());
      assert stored + block.Rest() == left && |block.Rest()| == 0;
      assert stored == left == if HasChecksum(flags) then rest[4..] else rest;
      state := ProcessBytes(crc, state, stored);
      FoldConcat(crc, crc.initial, before + ZEROS, stored);
      var data := Some(stored);
      if HasSnappy(flags) {
        data := codec.uncompress(stored);
      }
      if data == None {
        return DecompressionError;
      }
      if checksum.Some? && verifyChecksums && checksum.value != state % 0x1_0000_0000 {
        return ChecksumMismatch;
      }
      r := Good(LogFormat.Item.Item(fields.0, flags, fields.2, data.value));
    }

    /** The log was closed with an index. */
    ghost predicate EndsWithIndex() {
      && |log| >= 2 && log[|log| - 1].IndexEntry? && TrailingSize(log[|log| - 1].records) < TWO32
      && |log[|log| - 1].records| < TWO64
    }

    /** The file holds nothing but an index. */
    ghost predicate IsIndexAlone() {
      |log| == 1 && log[0].IndexEntry?
    }

    /** Uses the index that closes a log, if there is one, instead of a scan; it then knows the same records, and the
        same last data block if there is any.  It fails if and only if some schema block does not parse. */
    method MaybeProcessIndex() returns (use: IndexUse)
      requires Valid() && Genuine(enc, log) && Orderly(enc, log) && records == [] && finalItem == -1
      requires EndsWithIndex() || IsIndexAlone() || stream.buffer[|stream.buffer| - 8..] != TRAILER
      modifies stream, this`records, this`finalItem, this`hasIndex, this`allRecordsFound
      ensures Valid()
      ensures !EndsWithIndex() ==> use == Ignored && records == [] && finalItem == -1
      ensures use != Used ==> hasIndex == old(hasIndex) && allRecordsFound == old(allRecordsFound)
      ensures EndsWithIndex() ==> use == if AllParse(log) then Used else Failed
      ensures use == Used ==>
                && hasIndex && allRecordsFound && KnowsAll()
                && (forall id :: Find(records, id) == Find(LearnAll([], log, 0, |log|), id))
                && finalItem == Max(Furthest(enc, log, 0, |log|, -1), 0)
    {
      if EndsWithIndex() {
        IndexIsLast(crc, enc, log, log[|log| - 1].records);
      } else if IsIndexAlone() {
        AloneIsTooBig(crc, enc, log, log[0].records);
      }
      var found := FindIndex(EndsWithIndex(), if EndsWithIndex() then log[|log| - 1].records else []);
      if !found {
        return Ignored;
      }
      use := UseIndex();
    }

    /** Reads the body of the index. */
    method UseIndex() returns (use: IndexUse)
      requires Valid() && Genuine(enc, log) && Orderly(enc, log) && records == [] && EndsWithIndex()
      requires stream.Rest() == IndexBody(log[|log| - 1].records)
      modifies stream, this`records, this`finalItem, this`hasIndex, this`allRecordsFound
      ensures Valid() && use == if AllParse(log) then Used else Failed
      ensures use != Used ==> hasIndex == old(hasIndex) && allRecordsFound == old(allRecordsFound)
      ensures use == Used ==> hasIndex && allRecordsFound && KnowsAll()
      ensures use == Used ==> forall id :: Find(records, id) == Find(LearnAll([], log, 0, |log|), id)
      ensures use == Used ==> finalItem == Max(Furthest(enc, log, 0, |log|, -1), 0)
    {
      var local := ReadIndexBody();
      IndexSays(local);
      ListedParseAll(local);
      var ok := UseRecords(local);
      use := if ok then Used else Failed;
    }

    /** Finds what the index lists. */
    method UseRecords(local: seq<IndexRecord>) returns (ok: bool)
      requires Valid() && Genuine(enc, log) && Orderly(enc, log) && records == [] && EndsWithIndex()
      requires local == log[|log| - 1].records && ListsFrom(History(enc, log, |log|), local)
      requires MaxLast(local, 0) == Max(Furthest(enc, log, 0, |log|, -1), 0)
      modifies stream, this`records, this`finalItem, this`hasIndex, this`allRecordsFound
      ensures Valid() && ok == ListedParse(History(enc, log, |log|), local)
      ensures !ok ==> hasIndex == old(hasIndex) && allRecordsFound == old(allRecordsFound)
      ensures ok ==> hasIndex && allRecordsFound && KnowsAll()
      ensures ok ==> forall id :: Find(records, id) == Find(LearnAll([], log, 0, |log|), id)
      ensures ok ==> finalItem == Max(Furthest(enc, log, 0, |log|, -1), 0)
    {
      finalItem := 0;
      ok := FindSchemas(local);
      if ok {
        SameAsScan(local);
        hasIndex := true;
        allRecordsFound := true;
      }
    }

    /** Flags, the number of records, and the records. */
    method ReadIndexBody() returns (local: seq<IndexRecord>)
      requires Valid() && EndsWithIndex() && stream.Rest() == IndexBody(log[|log| - 1].records)
      modifies stream
      ensures Valid() && local == log[|log| - 1].records
    {
      IndexBodyRead(crc, log);
      var flags := ReadVaruint(stream);
      assert flags == Some(0);
      var nelements := ReadVaruint(stream);
      local := ReadLocalRecords(nelements.value);
    }

    /** Looks for the trailer, the size before it, and an index block that far from the end. */
    method FindIndex(ghost closed: bool, ghost indexed: seq<IndexRecord>) returns (found: bool)
      requires stream.Valid() && |stream.buffer| >= 9
      requires if closed then ClosedBy(stream.buffer, indexed) else NotClosed(stream.buffer)
      modifies stream
      ensures stream.Valid() && found == closed
      ensures found ==> stream.Rest() == IndexBody(indexed)
    {
      var size := |stream.buffer|;
      var trailerSize := ReadTrailer();
      if trailerSize == None || trailerSize.value >= size - 9 {
        return false;
      }
      SeekTo(size - trailerSize.value);
      var header, ok := ReadHeaderOf();
      if !ok || header == None || header.value.0 != TYPE_INDEX {
        return false;
      }
      found := true;
    }

    /** What stands before the trailer, if that is there. */
    method ReadTrailer() returns (trailerSize: Option<nat>)
      requires stream.Valid() && |stream.buffer| >= 9
      requires stream.buffer[|stream.buffer| - 8..] == TRAILER ==>
                 |stream.buffer| >= 12 && ReadLE(stream.buffer[|stream.buffer| - 12..], 4).Got?
      modifies stream
      ensures stream.Valid()
      ensures trailerSize == if stream.buffer[|stream.buffer| - 8..] != TRAILER then None
                             else Some(ReadLE(stream.buffer[|stream.buffer| - 12..], 4).value)
    {
      var size := |stream.buffer|;
      SeekTo(size - 8);
      var trailer := stream.Read(8);
      assert trailer + stream.Rest() == stream.buffer[size - 8..] && |stream.Rest()| == 0;
      if trailer != TRAILER {
        return None;
      }
      SeekTo(size - 12);
      trailerSize := stream.ReadScalar(4);
    }

    method ReadLocalRecords(n: nat) returns (local: seq<IndexRecord>)
      requires stream.Valid() && ReadIndexRecords(stream.Rest(), n).Got?
      modifies stream
      ensures stream.Valid() && local == ReadIndexRecords(old(stream.Rest()), n).value
    {
      local := [];
      ghost var all := ReadIndexRecords(stream.Rest(), n).value;
      for i := 0 to n
        invariant stream.Valid() && ReadIndexRecords(stream.Rest(), n - i).Got?
        invariant local + ReadIndexRecords(stream.Rest(), n - i).value == all
      {
        var identifier := ReadVaruint(stream);
        var schemaLocation := stream.ReadScalar(8);
        var finalRecord := stream.ReadScalar(8);
        var r := IndexRecord(identifier.value, schemaLocation.value, Signed64(finalRecord.value));
        Assoc(local, [r], ReadIndexRecords(stream.Rest(), n - i - 1).value);
        local := local + [r];
      }
    }

    /** Goes to every schema block the index names, and fails at the first one that does not parse. */
    method FindSchemas(local: seq<IndexRecord>) returns (ok: bool)
      requires Valid() && Orderly(enc, log) && records == []
      requires ListsFrom(History(enc, log, |log|), local)
      modifies stream, this`records, this`finalItem
      ensures Valid() && ok == ListedParse(History(enc, log, |log|), local)
      ensures ok ==> Listed(records, History(enc, log, |log|), local) && finalItem == MaxLast(local, old(finalItem))
    {
      ghost var m := History(enc, log, |log|);
      ok := true;
      for i := 0 to |local|
        invariant Valid() && ok && Listed(records, m, local[..i]) && ListedParse(m, local[..i])
        invariant MaxLast(local, old(finalItem)) == MaxLast(local[i..], finalItem)
      {
        var r := local[i];
        assert r in local;
        ghost var was := records;
        ghost var k := HistoryHasSchema(enc, log, |log|, r.id);
        FileFrom(enc, log, k);
        SeekTo(r.schemaAt);
        var typ, next, passes, noticed;
        ListedParseStep(was, m, local, i, log[k]);
        ok, typ, next, passes, noticed := ReadBlock(Filter.Nothing, k);
        if !ok {
          return;
        }
        ListedStep(was, m, local, i, log[k]);
        finalItem := Max(finalItem, r.lastAt);
        assert local[i..][1..] == local[i + 1..];
      }
      assert local[..|local|] == local;
    }

    /** What the index lists is what the writer knew. */
    lemma IndexSays(local: seq<IndexRecord>)
      requires EndsWithIndex() && Genuine(enc, log) && Orderly(enc, log) && local == log[|log| - 1].records
      ensures ListsFrom(History(enc, log, |log|), local)
      ensures MaxLast(local, 0) == Max(Furthest(enc, log, 0, |log|, -1), 0)
      ensures var m := History(enc, log, |log|); local == IndexOf(m, Ascending(m.Keys))
    {
      var m := History(enc, log, |log|);
      assert GenuineAt(enc, log, |log| - 1);
      assert m == History(enc, log, |log| - 1);
      IndexLists(m, Ascending(m.Keys));
      IndexFurthest(enc, log, |log|);
    }

    /** The schemas it lists are all schemas of the log. */
    lemma ListedParseAll(local: seq<IndexRecord>)
      requires Orderly(enc, log) && ListsFrom(History(enc, log, |log|), local)
      requires var m := History(enc, log, |log|); local == IndexOf(m, Ascending(m.Keys))
      ensures ListedParse(History(enc, log, |log|), local) <==> AllParse(log)
    {
      var m := History(enc, log, |log|);
      if AllParse(log) {
        forall r | r in local ensures RecordParses(m, r.id) {
          var k := HistoryHasSchema(enc, log, |log|, r.id);
          assert Parses(log[k]);
        }
      }
      if ListedParse(m, local) {
        forall k | 0 <= k < |log| ensures Parses(log[k]) {
          if log[k].SchemaEntry? {
            SchemaIsListed(local, k);
          }
        }
      }
    }

    lemma SchemaIsListed(local: seq<IndexRecord>, k: nat)
      requires Orderly(enc, log) && k < |log| && log[k].SchemaEntry?
      requires var m := History(enc, log, |log|); local == IndexOf(m, Ascending(m.Keys))
      ensures ListedParse(History(enc, log, |log|), local) ==> Parses(log[k])
    {
      var m, id := History(enc, log, |log|), log[k].id;
      IndexLists(m, Ascending(m.Keys));
      SchemaIsRemembered(enc, log, k);
      var i :| 0 <= i < |local| && local[i] == IndexRecord(id, m[id].schemaAt, m[id].lastAt);
      assert local[i] in local && log[k] == SchemaEntry(id, m[id].name, m[id].schema);
      assert ListedParse(m, local) ==> RecordParses(m, id);
    }

    /** What it led to is what a scan finds. */
    lemma SameAsScan(local: seq<IndexRecord>)
      requires EndsWithIndex() && Genuine(enc, log) && Orderly(enc, log) && local == log[|log| - 1].records
      requires Listed(records, History(enc, log, |log|), local)
      ensures KnowsAll() && forall id :: Find(records, id) == Find(LearnAll([], log, 0, |log|), id)
    {
      var m := History(enc, log, |log|);
      IndexSays(local);
      IndexLists(m, Ascending(m.Keys));
      forall id ensures Find(records, id) == Find(LearnAll([], log, 0, |log|), id) && (Find(records, id).Some? <==> id in m) {
        ScanLearnsHistory(enc, log, |log|, id);
        if id in m {
          var i :| 0 <= i < |local| && local[i] == IndexRecord(id, m[id].schemaAt, m[id].lastAt);
          assert local[i] in local;
        }
      }
    }

    /** What the reader knows after a scan or from the index: every record of the log. */
    ghost predicate KnowsAll()
      reads this
    {
      forall id :: Find(records, id).Some? <==> id in History(enc, log, |log|)
    }

    /** What it knows on the way: records of the log, be it only some of them. */
    ghost predicate KnowsSome()
      reads this
    {
      forall id :: Find(records, id).Some? ==> id in History(enc, log, |log|)
    }

    ghost predicate Known()
      reads this
    {
      if allRecordsFound then KnowsAll() else KnowsSome()
    }

    /** Reading on keeps that. */
    lemma LearnsOfLog(known: seq<Record>, j: nat, k: nat)
      requires Orderly(enc, log) && j <= k <= |log| && records == LearnAll(known, log, j, k)
      requires forall id :: Find(known, id).Some? ==> id in History(enc, log, |log|)
      ensures KnowsSome()
    {
      forall id | Find(records, id).Some? ensures id in History(enc, log, |log|) {
        LearnsOnly(enc, log, known, j, k, id);
      }
    }

    /** The items from `low` on, until one has no time or comes too late; each is the last one of its record so far. */
    method Walk(low: nat, timestamp: int, start: map<nat, int>, ghost k: nat) returns (result: map<nat, int>)
      requires Valid() && k <= |log| && low == Position(enc, log, k)
      requires Faithful(codec) && Readable(codec, log) && Orderly(enc, log) && KnowsAll()
      requires start == LatestAt(enc, log, k, timestamp)
      modifies stream, this`records, this`finalItem
      ensures Valid() && result == PlainScan(enc, log, k, timestamp, start)
      ensures records == old(records)
    {
      result := start;
      var index, _ := NextItem(low, k);
      ghost var j := NextData(log, k);
      OnToNext(enc, log, k, timestamp, result);
      while index != -1
        invariant Valid() && records == old(records)
        invariant j <= |log| && index == (if j < |log| then Position(enc, log, j) else -1)
        invariant j < |log| ==> log[j].DataEntry?
        invariant result == LatestAt(enc, log, j, timestamp)
        invariant PlainScan(enc, log, k, timestamp, start) == PlainScan(enc, log, j, timestamp, result)
        decreases |log| - j
      {
        var stop, updated := Include(index, timestamp, result, j);
        if stop {
          break;
        }
        result := updated;
        index := Advance(index, j);
        OnToNext(enc, log, j + 1, timestamp, result);
        j := NextData(log, j + 1);
      }
    }

    /** ItemIterator's increment: over the block it stands on, then on to the next. */
    method Advance(index: nat, ghost j: nat) returns (advanced: int)
      requires Valid() && j < |log| && log[j].DataEntry? && index == Position(enc, log, j)
      requires Orderly(enc, log) && KnowsAll()
      modifies stream, this`records, this`finalItem
      ensures Valid() && records == old(records)
      ensures var n := NextData(log, j + 1); advanced == if n < |log| then Position(enc, log, n) else -1
    {
      var first, after := NextItem(index, j);
      advanced, after := NextItem(after, j + 1);
    }

    /** All records being known, reading on goes to the next data block. */
    method NextItem(start: nat, ghost k: nat) returns (index: int, next: int)
      requires Valid() && k <= |log| && start == Position(enc, log, k)
      requires Orderly(enc, log) && KnowsAll()
      modifies stream, this`records, this`finalItem
      ensures Valid() && records == old(records)
      ensures
        var n := NextData(log, k);
        if n < |log| then index == Position(enc, log, n) && next == Position(enc, log, n + 1) else index == -1
    {
      AllKnown();
      EverythingPasses(log, records, k);
      var ok, noticed;
      ghost var stop;
      ok, index, next, noticed, stop := ReadUntil(start, EVERYTHING, k);
      assert ok;
    }

    /** One item: it ends the walk, or its index is the record's last one so far. */
    method Include(index: nat, timestamp: int, result: map<nat, int>, ghost j: nat)
      returns (stop: bool, updated: map<nat, int>)
      requires Valid() && j < |log| && log[j].DataEntry? && index == Position(enc, log, j)
      requires Faithful(codec) && Readable(codec, log) && Orderly(enc, log) && KnowsAll()
      requires result == LatestAt(enc, log, j, timestamp)
      modifies stream
      ensures Valid()
      ensures stop ==> PlainScan(enc, log, j, timestamp, result) == result
      ensures !stop ==> updated == LatestAt(enc, log, j + 1, timestamp)
                        && PlainScan(enc, log, j, timestamp, result) == PlainScan(enc, log, j + 1, timestamp, updated)
    {
      updated := result;
      ReadsBack(j);
      assert Find(records, log[j].data.id).Some? by {
        assert OrderlyAt(enc, log, j);
        HistoryKeeps(enc, log, j, |log|, log[j].data.id);
      }
      var item := Read(index);
      var time := item.item.time;
      if time == None || time.value > timestamp {
        return true, result;
      }
      stop := false;
      LatestIsBefore(enc, log, j, timestamp);
      var id := item.item.id;
      var current := if id in result then result[id] else 0;
      if index > current {
        updated := result[id := index];
      }
    }

    /** Then reading on teaches nothing new. */
    lemma AllKnown()
      requires Orderly(enc, log) && KnowsAll()
      ensures forall j, k :: 0 <= j <= k <= |log| ==> LearnAll(records, log, j, k) == records && LearnsAll(records, log, j, k)
    {
      forall i | 0 <= i < |log| && log[i].SchemaEntry? ensures Find(records, log[i].id).Some? {
        HistoryKeeps(enc, log, i + 1, |log|, log[i].id);
      }
      forall j, k | 0 <= j <= k <= |log| ensures LearnAll(records, log, j, k) == records && LearnsAll(records, log, j, k) {
        NothingNew(records, log, j, k);
      }
    }

    /** A full scan adds what was not known yet, all of it if it succeeds. */
    method FindAllRecords() returns (ok: bool)
      requires Valid() && Orderly(enc, log) && KnowsSome()
      modifies stream, this`records, this`finalItem, this`allRecordsFound
      ensures Valid() && ok == LearnsAll(old(records), log, 0, |log|)
      ensures if ok then allRecordsFound && KnowsAll() else allRecordsFound == old(allRecordsFound) && KnowsSome()
    {
      ghost var known := records;
      ghost var stop;
      ok, stop := FullScan();
      LearnsOfLog(known, 0, stop);
      if !ok {
        return;
      }
      forall id ensures Find(records, id).Some? <==> id in History(enc, log, |log|) {
        ScanAdds(enc, log, known, |log|, id);
      }
    }

    /** Seek: the bisection narrows down with whatever genuine markers the search comes across, then the rest is walked
        through.  For a log that was written with one schema block per identifier and monotone times the answer is the
        plain scan's.  It fails if and only if the scan for the records does. */
    method Seek(timestamp: int) returns (ok: bool, result: map<nat, int>)
      requires Valid() && Genuine(enc, log) && Orderly(enc, log) && Monotone(log)
      requires Faithful(codec) && Readable(codec, log)
      requires NoForgery(crc, enc, log, stream.buffer)
      requires Known()
      modifies stream, this`records, this`finalItem, this`allRecordsFound
      ensures Valid() && Known() && allRecordsFound == ok
      ensures ok == (old(allRecordsFound) || LearnsAll(old(records), log, 0, |log|))
      ensures ok ==> result == PlainScan(enc, log, 0, timestamp, map[])
    {
      result := map[];
      ok := FindRecords();
      if ok {
        result := SeekKnown(timestamp);
      }
    }

    method FindRecords() returns (ok: bool)
      requires Valid() && Orderly(enc, log)
      requires Known()
      modifies stream, this`records, this`finalItem, this`allRecordsFound
      ensures Valid() && Known() && allRecordsFound == ok
      ensures ok == (old(allRecordsFound) || LearnsAll(old(records), log, 0, |log|))
    {
      ok := true;
      if !allRecordsFound {
        ok := FindAllRecords();
      }
    }

    /** Seek, all records being known. */
    method SeekKnown(timestamp: int) returns (result: map<nat, int>)
      requires Valid() && Genuine(enc, log) && Orderly(enc, log) && Monotone(log) && KnowsAll()
      requires Faithful(codec) && Readable(codec, log)
      requires NoForgery(crc, enc, log, stream.buffer)
      modifies stream, this`records, this`finalItem
      ensures Valid() && records == old(records)
      ensures result == PlainScan(enc, log, 0, timestamp, map[])
    {
      SameIds();
      var low;
      ghost var k: nat;
      low, result, k := Bisect(timestamp);
      PlainScanFindsLatest(enc, log, k, timestamp);
      PlainScanFindsLatest(enc, log, 0, timestamp);
      result := Walk(low, timestamp, result, k);
    }

    /** `low` is where block `k` starts, and `result` is what a scan up to it finds. */
    ghost predicate UpTo(k: nat, low: nat, result: map<nat, int>, timestamp: int)
      requires k <= |log|
    {
      low == Position(enc, log, k) && result == LatestAt(enc, log, k, timestamp)
    }

    /** Where to start walking, and the last items up to there. */
    method Bisect(timestamp: int) returns (low: nat, result: map<nat, int>, ghost k: nat)
      requires Valid() && Genuine(enc, log) && Orderly(enc, log) && Monotone(log)
      requires Unforged(BlocksIn(crc, stream.buffer, Ids(records)), enc, log, stream.buffer)
      ensures k <= |log| && UpTo(k, low, result, timestamp)
    {
      var high := finalItem;
      low := 9;
      result := map[];
      k := 0;
      while high - low > MIN_SPACING
        invariant k <= |log| && UpTo(k, low, result, timestamp)
        decreases high - low
      {
        var seek := FindGenuine(low + (high - low) / 2, high);
        if seek == NoMarker {
          break;
        }
        if seek.time <= timestamp {
          k := MarkerAt(seek.time, seek.index, seek.last, timestamp);
          low := seek.index;
          result := seek.last;
        } else {
          high := seek.index;
        }
      }
    }

    method FindGenuine(mid: nat, high: int) returns (seek: Evaluated)
      requires Valid() && Unforged(BlocksIn(crc, stream.buffer, Ids(records)), enc, log, stream.buffer) && mid < high
      ensures seek == NoMarker
           || (seek.Marker? && IsMarkerOf(enc, log, seek.time, seek.index, seek.last) && mid - 17 <= seek.index < high)
    {
      seek := FindSeekMarker(crc, stream.buffer, Ids(records), mid, high);
      SoughtIsGenuine(BlocksIn(crc, stream.buffer, Ids(records)), enc, log, stream.buffer, mid, high);
    }

    lemma MarkerAt(time: int, index: nat, last: map<nat, int>, timestamp: int) returns (k: nat)
      requires IsMarkerOf(enc, log, time, index, last) && time <= timestamp
      requires Genuine(enc, log) && Orderly(enc, log) && Monotone(log)
      ensures k < |log| && index == Position(enc, log, k) && last == LatestAt(enc, log, k, timestamp)
    {
      k :| k < |log| && log[k].MarkerEntry? && log[k].time == time
           && index == Position(enc, log, k) && last == LastOf(log[k].offsets, index);
      MarkerSaysLatest(enc, log, k, timestamp);
    }

    lemma SameIds()
      requires Orderly(enc, log) && KnowsAll()
      ensures Ids(records) == Ids(LearnAll([], log, 0, |log|))
    {
      var scanned := LearnAll([], log, 0, |log|);
      forall id: nat ensures id in Ids(records) <==> id in Ids(scanned) {
        FindIsIn(records, id);
        FindIsIn(scanned, id);
        ScanLearnsHistory(enc, log, |log|, id);
      }
    }

    lemma ReadsBack(j: nat)
      requires j < |log| && log[j].DataEntry? && Faithful(codec) && Readable(codec, log)
      requires AllFit(crc, log) && Encodes(crc, enc)
      ensures
        Position(enc, log, j) <= |FileBytes(enc, log)| &&
        var r := ReadItem(crc, codec, verifyChecksums, FileBytes(enc, log)[Position(enc, log, j)..]);
        r.Good? && r.item.id == log[j].data.id && r.item.time == log[j].data.time
    {
      assert StoredAt(codec, log, j);
      var data: seq<byte> :| log[j].data.stored == Stored(codec, log[j].data.packed, data);
      ReadsBackAs(j, data);
    }

    /** Reading at a data block gives its identifier, its time, and what its payload stands for. */
    lemma ReadsBackAs(j: nat, data: seq<byte>)
      requires j < |log| && log[j].DataEntry? && Faithful(codec)
      requires log[j].data.stored == Stored(codec, log[j].data.packed, data)
      requires AllFit(crc, log) && Encodes(crc, enc)
      ensures
        var d := log[j].data;
        Position(enc, log, j) <= |FileBytes(enc, log)| &&
        ReadItem(crc, codec, verifyChecksums, FileBytes(enc, log)[Position(enc, log, j)..])
        == Good(LogFormat.Item.Item(d.id, Flags(d), d.time, data))
    {
      assert FitsAt(crc, log, j) && EncodesEntry(crc, enc, log[j]);
      FileFrom(enc, log, j);
      ItemAfterData(crc, codec, verifyChecksums, log[j].data, data, LogBytes(enc, log[j + 1..]));
    }
  }

  /** What was written is not forged, looked at one byte late or not. */
  lemma WrittenIsUnforged(c: Crc, enc: Encoding, log: seq<Entry>, k: nat, ids: set<nat>, file: seq<byte>,
                          time: int, offsets: seq<(nat, nat)>)
    requires WrittenAt(c, enc, log, k, ids, file, time, offsets)
    ensures UnforgedAt(BlocksIn(c, file, ids), enc, log, file, SignatureOf(enc, log, k))
  {
    MarkerIsFound(c, enc, log, k, ids, file, time, offsets);
    LateFindsNothing(c, enc, log, k, ids, file, time, offsets);
    assert IsMarkerOf(enc, log, time, Position(enc, log, k), LastOf(offsets, Position(enc, log, k)));
  }

  /** Whatever the search returns is a marker that was written, not far before the range. */
  lemma SoughtIsGenuine(blocks: Blocks, enc: Encoding, log: seq<Entry>, file: seq<byte>, from: nat, end: int)
    requires Unforged(blocks, enc, log, file) && from < end
    ensures
      var r := Search(blocks, file, Min(|file|, end), from, from, 0);
      r != Trouble && (r.Marker? ==> IsMarkerOf(enc, log, r.time, r.index, r.last) && from - 17 <= r.index < end)
  {
    var r := Search(blocks, file, Min(|file|, end), from, from, 0);
    if from < |file| {
      var p, at := SearchFindsAt(blocks, file, Min(|file|, end), from, from, 0);
      if r != NoMarker {
        assert UnforgedAt(blocks, enc, log, file, p);
      }
    }
  }

  lemma FurthestStep(enc: Encoding, log: seq<Entry>, k: nat, i: nat, f: int)
    requires k <= i < |log|
    ensures Furthest(enc, log, k, i + 1, f) ==
              if TypeOf(log[i]) == TYPE_DATA then Max(Furthest(enc, log, k, i, f), Position(enc, log, i)) else Furthest(enc, log, k, i, f)
  {
  }

  lemma {:induction false} PlainScanSkips(enc: Encoding, log: seq<Entry>, k: nat, j: nat, t: int, m: map<nat, int>)
    requires k <= j <= |log| && forall i :: k <= i < j ==> !log[i].DataEntry?
    ensures PlainScan(enc, log, k, t, m) == PlainScan(enc, log, j, t, m)
    decreases j - k
  {
    if k < j {
      PlainScanSkips(enc, log, k + 1, j, t, m);
    }
  }

  lemma NoItem(c: Crc, codec: Codec, verify: bool, b: seq<byte>)
    requires !ReadHeader(b).Got? || ReadHeader(b).value.0 != TYPE_DATA || |ReadHeader(b).rest| < ReadHeader(b).value.1
    ensures ReadItem(c, codec, verify, b) == Malformed
  {
  }

  lemma ItemIsBody(c: Crc, codec: Codec, verify: bool, file: seq<byte>, index: nat, at: nat, size: nat)
    requires index <= at <= at + size <= |file| && ReadHeader(file[index..]) == Got((TYPE_DATA, size), file[at..])
    ensures ReadItem(c, codec, verify, file[index..]) == ReadBody(c, codec, verify, file[index..at], file[at..at + size])
  {
    BlockParts(file, index, at, size);
  }

  lemma BlockParts(file: seq<byte>, index: nat, at: nat, size: nat)
    requires index <= at <= at + size <= |file|
    ensures file[index..][..|file[index..]| - |file[at..]|] == file[index..at]
    ensures file[at..][..size] == file[at..at + size]
  {
  }

  /** Nothing happens up to the next data block. */
  lemma OnToNext(enc: Encoding, log: seq<Entry>, k: nat, t: int, m: map<nat, int>)
    requires k <= |log|
    ensures PlainScan(enc, log, k, t, m) == PlainScan(enc, log, NextData(log, k), t, m)
    ensures LatestAt(enc, log, k, t) == LatestAt(enc, log, NextData(log, k), t)
  {
    PlainScanSkips(enc, log, k, NextData(log, k), t, m);
    LatestSkips(enc, log, k, NextData(log, k), t);
  }

  /** The records list what `m` holds. */
  ghost predicate ListsFrom(m: Schemas, local: seq<IndexRecord>) {
    forall r :: r in local ==> r.id in m && r.schemaAt == m[r.id].schemaAt
  }

  /** Exactly the records listed are known, as the writer knew them. */
  ghost predicate Listed(rs: seq<Record>, m: Schemas, local: seq<IndexRecord>) {
    forall id ::
      Find(rs, id) == if id in m && exists r :: r in local && r.id == id then Some(Record(id, m[id].name, m[id].schema)) else None
  }

  /** The schema remembered for an identifier is one. */
  ghost predicate RecordParses(m: Schemas, id: nat) {
    id in m ==> Parses(SchemaEntry(id, m[id].name, m[id].schema))
  }

  ghost predicate ListedParse(m: Schemas, local: seq<IndexRecord>) {
    forall r :: r in local ==> RecordParses(m, r.id)
  }

  /** An identifier listed before is known, and was parsed then. */
  lemma ListedParseStep(rs: seq<Record>, m: Schemas, local: seq<IndexRecord>, i: nat, e: Entry)
    requires i < |local| && Listed(rs, m, local[..i]) && ListedParse(m, local[..i]) && local[i].id in m
    requires e == SchemaEntry(local[i].id, m[local[i].id].name, m[local[i].id].schema)
    ensures Learnable(rs, e) <==> ListedParse(m, local[..i + 1])
    ensures !Learnable(rs, e) ==> !ListedParse(m, local)
  {
    assert local[..i + 1] == local[..i] + [local[i]];
    assert local[i] in local[..i + 1] && local[i] in local;
    if Find(rs, e.id).Some? {
      var r :| r in local[..i] && r.id == e.id;
      assert RecordParses(m, r.id);
    }
  }

  lemma ListedStep(rs: seq<Record>, m: Schemas, local: seq<IndexRecord>, i: nat, e: Entry)
    requires i < |local| && Listed(rs, m, local[..i]) && local[i].id in m
    requires e == SchemaEntry(local[i].id, m[local[i].id].name, m[local[i].id].schema)
    ensures Listed(Learn(rs, e), m, local[..i + 1])
  {
    assert local[..i + 1] == local[..i] + [local[i]];
    var r := Record(e.id, e.name, e.schema);
    forall id
      ensures Find(Learn(rs, e), id) ==
              if id in m && exists r :: r in local[..i + 1] && r.id == id then Some(Record(id, m[id].name, m[id].schema)) else None
    {
      FindAppended(rs, r, id);
      if id == e.id {
        assert local[i] in local[..i + 1];
      } else if exists r :: r in local[..i + 1] && r.id == id {
        var q :| q in local[..i + 1] && q.id == id;
        assert q in local[..i];
      }
    }
  }

  /** A file that ends with this index, as a reader will find out. */
  ghost predicate ClosedBy(file: seq<byte>, records: seq<IndexRecord>) {
    var trailing, body := TrailingSize(records), IndexBody(records);
    && 12 <= trailing < |file| - 9
    && file[|file| - 8..] == TRAILER
    && ReadLE(file[|file| - 12..], 4).Got? && ReadLE(file[|file| - 12..], 4).value == trailing
    && ReadHeader(file[|file| - trailing..]) == Got((TYPE_INDEX, |body|), body)
  }

  /** A file whose end a reader does not take for an index's, or only for that of one too big for the file. */
  ghost predicate NotClosed(file: seq<byte>) {
    |file| >= 8 && file[|file| - 8..] == TRAILER ==>
      |file| >= 12 && ReadLE(file[|file| - 12..], 4).Got? && ReadLE(file[|file| - 12..], 4).value >= |file| - 9
  }

  /** An index alone is. */
  lemma AloneIsTooBig(c: Crc, enc: Encoding, log: seq<Entry>, records: seq<IndexRecord>)
    requires Encodes(c, enc) && AllFit(c, log) && Genuine(enc, log) && |log| == 1 && log[0] == IndexEntry(records)
    ensures NotClosed(FileBytes(enc, log))
  {
    assert GenuineAt(enc, log, 0);
    assert records == IndexOf(map[], []) == [];
    LastIsIndex(c, enc, log, records);
    LastBlock(enc, log, enc(log[0]));
    EndOfIndex(FileBytes(enc, log), records);
  }

  /** Where a reader looks for the index of a closed log, it is. */
  lemma IndexIsLast(c: Crc, enc: Encoding, log: seq<Entry>, records: seq<IndexRecord>)
    requires Encodes(c, enc) && |log| >= 2 && AllFit(c, log) && log[|log| - 1] == IndexEntry(records) && TrailingSize(records) < TWO32
    ensures ClosedBy(FileBytes(enc, log), records)
  {
    var block := enc(log[|log| - 1]);
    LastIsIndex(c, enc, log, records);
    LastBlock(enc, log, block);
    ClosedByLast(FileBytes(enc, log), records, block);
  }

  lemma LastIsIndex(c: Crc, enc: Encoding, log: seq<Entry>, records: seq<IndexRecord>)
    requires Encodes(c, enc) && log != [] && AllFit(c, log) && log[|log| - 1] == IndexEntry(records)
    ensures enc(log[|log| - 1]) == BlockBytes(TYPE_INDEX, IndexBody(records)) && |IndexBody(records)| < TWO64
  {
    assert FitsAt(c, log, |log| - 1);
    assert EncodesEntry(c, enc, log[|log| - 1]);
  }

  lemma ClosedByLast(file: seq<byte>, records: seq<IndexRecord>, block: seq<byte>)
    requires block == BlockBytes(TYPE_INDEX, IndexBody(records)) && |IndexBody(records)| < TWO64
    requires TrailingSize(records) < TWO32 && |block| < |file| - 9 && file[|file| - |block|..] == block
    ensures ClosedBy(file, records)
  {
    var body := IndexBody(records);
    TrailingSizeIsBlockSize(records);
    HeaderAfterBlock(TYPE_INDEX, body, []);
    assert block + [] == block && body + [] == body;
    EndOfIndex(file, records);
  }

  lemma LastBlock(enc: Encoding, log: seq<Entry>, block: seq<byte>)
    requires log != [] && block == enc(log[|log| - 1])
    ensures
      var file := FileBytes(enc, log);
      |block| + 9 <= |file| && (|block| + 9 == |file| <==> |log| == 1) && file[|file| - |block|..] == block
  {
    var n := |log| - 1;
    FileFrom(enc, log, n);
    FileFrom(enc, log, |log|);
    PositionsGrow(enc, log, 0, n);
    PositionNext(enc, log, n);
    assert LogBytes(enc, log[n + 1..]) == [] && block + [] == block;
  }

  lemma EndOfIndex(file: seq<byte>, records: seq<IndexRecord>)
    requires TrailingSize(records) <= |file| && TrailingSize(records) < TWO32
    requires file[|file| - TrailingSize(records)..] == BlockBytes(TYPE_INDEX, IndexBody(records))
    ensures |file| >= 12 && file[|file| - 8..] == TRAILER
    ensures ReadLE(file[|file| - 12..], 4).Got? && ReadLE(file[|file| - 12..], 4).value == TrailingSize(records)
  {
    var trailing := TrailingSize(records);
    var size := LE(Wrap32(trailing), 4);
    TrailingSizeIsBlockSize(records);
    var block := BlockBytes(TYPE_INDEX, IndexBody(records));
    var front := Encode(TYPE_INDEX) + Encode(|IndexBody(records)|) + IndexHead(records);
    Assoc(Encode(TYPE_INDEX) + Encode(|IndexBody(records)|), IndexHead(records), size + TRAILER);
    assert block == front + (size + TRAILER);
    SliceOfSuffix(file, |file| - trailing, 0, trailing - 12);
    assert file[|file| - 12..] == block[trailing - 12..] == size + TRAILER;
    SliceOfSuffix(file, |file| - 12, 0, 4);
    assert file[|file| - 8..] == TRAILER;
    Pow256Values();
    ReadLEAfterLE(Wrap32(trailing), 4, TRAILER);
  }

  lemma IndexBodyRead(c: Crc, log: seq<Entry>)
    requires log != [] && AllFit(c, log) && log[|log| - 1].IndexEntry? && |log[|log| - 1].records| < TWO64
    ensures
      var records := log[|log| - 1].records;
      var body := IndexBody(records);
      && Decode(body).Got? && Decode(body).value == 0
      && Decode(Decode(body).rest).Got? && Decode(Decode(body).rest).value == |records|
      && var b := Decode(Decode(body).rest).rest;
         ReadIndexRecords(b, |records|).Got? && ReadIndexRecords(b, |records|).value == records
  {
    var records := log[|log| - 1].records;
    assert FitsAt(c, log, |log| - 1);
    var tail := LE(Wrap32(TrailingSize(records)), 4) + TRAILER;
    var b2 := IndexRecords(records) + tail;
    Assoc(Encode(0), Encode(|records|) + IndexRecords(records), tail);
    Assoc(Encode(|records|), IndexRecords(records), tail);
    DecodeAfterEncode(0, Encode(|records|) + b2);
    DecodeAfterEncode(|records|, b2);
    IndexRecordsRead(records, tail);
  }

  lemma DataStartsWithId(c: Crc, d: Data, later: seq<byte>)
    requires d.id < TWO64
    ensures Decode(DataBody(c, d) + later).Got? && Decode(DataBody(c, d) + later).value == d.id
  {
    var rest := Encode(Flags(d)) + (Previous(d.previous) + Time(d.time));
    var tail := SumBytes(c, d) + d.stored;
    Assoc(Encode(d.id) + rest, tail, later);
    Assoc(Encode(d.id), rest, tail + later);
    DecodeAfterEncode(d.id, rest + (tail + later));
  }

  lemma SchemaChain(id: nat, name: seq<byte>, schema: seq<byte>)
    requires id < TWO64 && BinaryFormat.IsString(name)
    ensures
      var body := SchemaBody(id, name, schema);
      && Decode(body).Got? && Decode(body).value == id
      && Decode(Decode(body).rest).Got?
      && Decode(Decode(Decode(body).rest).rest) == Got(|name|, name + schema)
  {
    var b2 := BinaryFormat.Str(name) + schema;
    DecodeAfterEncode(id, Encode(0) + b2);
    DecodeAfterEncode(0, b2);
    Assoc(Encode(|name|), name, schema);
    DecodeAfterEncode(|name|, name + schema);
  }

  lemma Split(a: seq<byte>, b: seq<byte>, c: seq<byte>, d: seq<byte>)
    requires a + b == c + d && |a| == |c|
    ensures a == c && b == d
  {
    assert (a + b)[..|a|] == a && (c + d)[..|c|] == c;
    assert (a + b)[|a|..] == b && (c + d)[|c|..] == d;
  }
}
