/** What a reader should find in a log: its records, its last block, and the last item of every record at a given
    time. */
module LogScan {
  import opened Bytes
  import opened Framing
  import opened LogFormat
  import opened SeekMarker
  import opened LogHistory
  import BinaryFormat
  import SchemaParser

  /** A record as the reader keeps it. */
  datatype Record = Record(id: nat, name: seq<byte>, schema: seq<byte>)

  function Find(rs: seq<Record>, id: nat): Option<Record> {
    if rs == [] then None else if rs[0].id == id then Some(rs[0]) else Find(rs[1..], id)
  }

  function Ids(rs: seq<Record>): set<nat> {
    set r | r in rs :: r.id
  }

  lemma {:induction false} FindIsIn(rs: seq<Record>, id: nat)
    ensures Find(rs, id).Some? <==> id in Ids(rs)
  {
    if rs != [] {
      FindIsIn(rs[1..], id);
      assert rs == [rs[0]] + rs[1..];
    }
  }

  lemma {:induction false} FindAppended(rs: seq<Record>, r: Record, id: nat)
    ensures Find(rs + [r], id) == if Find(rs, id).Some? then Find(rs, id) else if r.id == id then Some(r) else None
  {
    if rs != [] {
      assert (rs + [r])[1..] == rs[1..] + [r];
      FindAppended(rs[1..], r, id);
    }
  }

  /** A schema block adds its record, unless the identifier is known. */
  function Learn(rs: seq<Record>, e: Entry): seq<Record> {
    if e.SchemaEntry? && Find(rs, e.id) == None then rs + [Record(e.id, e.name, e.schema)] else rs
  }

  function LearnAll(rs: seq<Record>, log: seq<Entry>, j: nat, k: nat): seq<Record>
    requires j <= k <= |log|
    decreases k
  {
    if j == k then rs else Learn(LearnAll(rs, log, j, k - 1), log[k - 1])
  }

  // ----- schema blocks that a reader can make something of

  /** The bytes of a schema block are a schema; the rest of them does not matter. */
  ghost predicate Parses(e: Entry) {
    e.SchemaEntry? ==> exists element, rest :: SchemaParser.ParseType(e.schema, e.name) == Got(element, rest)
  }

  /** Only a schema block of a new identifier is parsed; the parser's exception passes through the reader. */
  ghost predicate Learnable(rs: seq<Record>, e: Entry) {
    (e.SchemaEntry? && Find(rs, e.id).Some?) || Parses(e)
  }

  /** Reading a part of the log meets no schema block that raises an exception. */
  ghost predicate LearnsAll(rs: seq<Record>, log: seq<Entry>, j: nat, k: nat)
    requires j <= k <= |log|
    decreases k
  {
    j < k ==> LearnsAll(rs, log, j, k - 1) && Learnable(LearnAll(rs, log, j, k - 1), log[k - 1])
  }

  /** Every schema block parses. */
  ghost predicate AllParse(log: seq<Entry>) {
    forall i :: 0 <= i < |log| ==> Parses(log[i])
  }

  lemma {:induction false} LearnAllSplit(rs: seq<Record>, log: seq<Entry>, j: nat, i: nat, k: nat)
    requires j <= i <= k <= |log|
    ensures LearnAll(LearnAll(rs, log, j, i), log, i, k) == LearnAll(rs, log, j, k)
    ensures LearnsAll(rs, log, j, k) <==> LearnsAll(rs, log, j, i) && LearnsAll(LearnAll(rs, log, j, i), log, i, k)
    decreases k
  {
    if i < k {
      LearnAllSplit(rs, log, j, i, k - 1);
    }
  }

  /** In an orderly log a fresh reader parses every schema block. */
  lemma {:induction false} LearnsAllIffAllParse(enc: Encoding, log: seq<Entry>, k: nat)
    requires k <= |log| && Orderly(enc, log)
    ensures LearnsAll([], log, 0, k) <==> forall i :: 0 <= i < k ==> Parses(log[i])
  {
    if k > 0 {
      LearnsAllIffAllParse(enc, log, k - 1);
      assert OrderlyAt(enc, log, k - 1);
      if log[k - 1].SchemaEntry? {
        ScanLearnsHistory(enc, log, k - 1, log[k - 1].id);
      }
    }
  }

  /** Whatever is known already, a log whose schema blocks all parse raises no exception. */
  lemma {:induction false} AllParseLearnsAll(rs: seq<Record>, log: seq<Entry>, j: nat, k: nat)
    requires j <= k <= |log| && AllParse(log)
    ensures LearnsAll(rs, log, j, k)
    decreases k
  {
    if j < k {
      AllParseLearnsAll(rs, log, j, k - 1);
    }
  }

  /** The block holds the emitted bytes of some well-formed schema. */
  ghost predicate IsEmitted(e: Entry) {
    e.SchemaEntry? ==> exists s :: BinaryFormat.WellFormed(s) && e.schema == BinaryFormat.Emit(s)
  }

  /** As all do that the schema archive wrote. */
  lemma EmittedParses(e: Entry)
    requires IsEmitted(e)
    ensures Parses(e)
  {
    if e.SchemaEntry? {
      var s :| BinaryFormat.WellFormed(s) && e.schema == BinaryFormat.Emit(s);
      SchemaParser.ParseAfterEmit(s, e.name, []);
      assert e.schema + [] == e.schema;
    }
  }

  lemma EmittedAllParse(log: seq<Entry>)
    requires forall i :: 0 <= i < |log| ==> IsEmitted(log[i])
    ensures AllParse(log)
  {
    forall i | 0 <= i < |log| ensures Parses(log[i]) {
      EmittedParses(log[i]);
    }
  }

  /** "testschema" is no schema: its first byte would be a type number above the last. */
  const TEST_SCHEMA: seq<byte> := [0x74, 0x65, 0x73, 0x74, 0x73, 0x63, 0x68, 0x65, 0x6d, 0x61]

  /** So no reader gets past a block that holds it. */
  lemma TestSchemaStops(id: nat, name: seq<byte>)
    ensures SchemaParser.ParseType(TEST_SCHEMA, name) == Bytes.Abort
    ensures !LearnsAll([], [SchemaEntry(id, name, TEST_SCHEMA)], 0, 1)
  {
    assert Varuint.Raw(TEST_SCHEMA) == Got(0x74, TEST_SCHEMA[1..]);
    var log := [SchemaEntry(id, name, TEST_SCHEMA)];
    assert LearnAll([], log, 0, 0) == [];
  }

  // ----- the record of an item

  /** Reading an item ends by looking its record up. */
  function OfKnown(rs: seq<Record>, r: ItemRead): ItemRead {
    if r.Good? && Find(rs, r.item.id) == None then UnknownRecord else r
  }

  // ----- how far the data goes

  function Max(a: int, b: int): int { if a < b then b else a }

  /** Where the last data block in a part of the log starts, or `f` when that is further. */
  function Furthest(enc: Encoding, log: seq<Entry>, j: nat, k: nat, f: int): int
    requires j <= k <= |log|
    decreases k
  {
    if j == k then f
    else
      var before := Furthest(enc, log, j, k - 1, f);
      if log[k - 1].DataEntry? then Max(before, Position(enc, log, k - 1)) else before
  }

  function NextData(log: seq<Entry>, k: nat): (j: nat)
    requires k <= |log|
    ensures k <= j <= |log| && (j < |log| ==> log[j].DataEntry?)
    ensures forall i :: k <= i < j ==> !log[i].DataEntry?
    decreases |log| - k
  {
    if k == |log| || log[k].DataEntry? then k else NextData(log, k + 1)
  }

  /** Everything known already: nothing is learned. */
  lemma {:induction false} NothingNew(rs: seq<Record>, log: seq<Entry>, j: nat, k: nat)
    requires j <= k <= |log| && forall i :: j <= i < k && log[i].SchemaEntry? ==> Find(rs, log[i].id).Some?
    ensures LearnAll(rs, log, j, k) == rs && LearnsAll(rs, log, j, k)
    decreases k
  {
    if j < k {
      NothingNew(rs, log, j, k - 1);
    }
  }

  /** In an orderly log a scan from the start learns what the writer knew. */
  lemma {:induction false} ScanLearnsHistory(enc: Encoding, log: seq<Entry>, k: nat, id: nat)
    requires k <= |log| && Orderly(enc, log)
    ensures
      var m := History(enc, log, k);
      Find(LearnAll([], log, 0, k), id) == if id in m then Some(Record(id, m[id].name, m[id].schema)) else None
  {
    if k > 0 {
      ScanLearnsHistory(enc, log, k - 1, id);
      assert OrderlyAt(enc, log, k - 1);
      var rs := LearnAll([], log, 0, k - 1);
      if log[k - 1].SchemaEntry? {
        ScanLearnsHistory(enc, log, k - 1, log[k - 1].id);
        FindAppended(rs, Record(log[k - 1].id, log[k - 1].name, log[k - 1].schema), id);
      }
    }
  }

  /** A scan that starts out knowing something adds all the writer knew. */
  lemma {:induction false} ScanAdds(enc: Encoding, log: seq<Entry>, rs: seq<Record>, k: nat, id: nat)
    requires k <= |log| && Orderly(enc, log)
    ensures Find(LearnAll(rs, log, 0, k), id).Some? <==> Find(rs, id).Some? || id in History(enc, log, k)
  {
    if k > 0 {
      ScanAdds(enc, log, rs, k - 1, id);
      assert OrderlyAt(enc, log, k - 1);
      if log[k - 1].SchemaEntry? {
        FindAppended(LearnAll(rs, log, 0, k - 1), Record(log[k - 1].id, log[k - 1].name, log[k - 1].schema), id);
      }
    }
  }

  /** No part of a log teaches more than there is in it. */
  lemma {:induction false} LearnsOnly(enc: Encoding, log: seq<Entry>, rs: seq<Record>, j: nat, k: nat, id: nat)
    requires j <= k <= |log| && Find(LearnAll(rs, log, j, k), id).Some?
    ensures Find(rs, id).Some? || id in History(enc, log, |log|)
    decreases k
  {
    if j < k {
      var before, e := LearnAll(rs, log, j, k - 1), log[k - 1];
      if Find(before, id).Some? {
        LearnsOnly(enc, log, rs, j, k - 1, id);
      } else {
        FindAppended(before, Record(e.id, e.name, e.schema), id);
        HistoryKeeps(enc, log, k, |log|, id);
      }
    }
  }

  lemma {:induction false} HistoryKeeps(enc: Encoding, log: seq<Entry>, j: nat, k: nat, id: nat)
    requires j <= k <= |log| && id in History(enc, log, j)
    ensures id in History(enc, log, k)
    decreases k
  {
    if j < k {
      HistoryKeeps(enc, log, j, k - 1, id);
    }
  }

  /** The writer knows of a schema block for every identifier. */
  lemma {:induction false} HistoryHasSchema(enc: Encoding, log: seq<Entry>, k: nat, id: nat) returns (j: nat)
    requires k <= |log| && Orderly(enc, log) && id in History(enc, log, k)
    ensures
      var r := History(enc, log, k)[id];
      j < k && log[j] == SchemaEntry(id, r.name, r.schema) && Position(enc, log, j) == r.schemaAt
  {
    assert OrderlyAt(enc, log, k - 1);
    if log[k - 1].SchemaEntry? && log[k - 1].id == id {
      j := k - 1;
    } else {
      j := HistoryHasSchema(enc, log, k - 1, id);
    }
  }

  /** In an orderly log the writer's record of an identifier is that of its one schema block. */
  lemma {:induction false} SchemaIsRemembered(enc: Encoding, log: seq<Entry>, j: nat)
    requires j < |log| && Orderly(enc, log) && log[j].SchemaEntry?
    ensures
      var m, id := History(enc, log, |log|), log[j].id;
      id in m && m[id].name == log[j].name && m[id].schema == log[j].schema
  {
    HistoryKeeps(enc, log, j + 1, |log|, log[j].id);
    var k := HistoryHasSchema(enc, log, |log|, log[j].id);
    assert OrderlyAt(enc, log, j) && OrderlyAt(enc, log, k);
    if j < k {
      HistoryKeeps(enc, log, j + 1, k, log[j].id);
    } else if k < j {
      HistoryKeeps(enc, log, k + 1, j, log[j].id);
    }
  }

  // ----- the last items at a given time

  /** Every data block has a time, and times never decrease. */
  ghost predicate Monotone(log: seq<Entry>) {
    forall i, j :: 0 <= i <= j < |log| && log[i].DataEntry? && log[j].DataEntry? ==>
      log[i].data.time.Some? && log[j].data.time.Some? && log[i].data.time.value <= log[j].data.time.value
  }

  /** Per identifier, where its last data block with a time of at most `t` starts, among the first `k` blocks. */
  function LatestAt(enc: Encoding, log: seq<Entry>, k: nat, t: int): map<nat, int>
    requires k <= |log|
  {
    if k == 0 then map[]
    else
      var m := LatestAt(enc, log, k - 1, t);
      if log[k - 1].DataEntry? && log[k - 1].data.time.Some? && log[k - 1].data.time.value <= t
      then m[log[k - 1].data.id := Position(enc, log, k - 1)]
      else m
  }

  /** Which says of each identifier: no such block exists, or this is one and none later is. */
  lemma {:induction false} LatestIsLast(enc: Encoding, log: seq<Entry>, k: nat, t: int, id: nat)
    requires k <= |log|
    ensures
      var m := LatestAt(enc, log, k, t);
      if id in m then
        exists j: nat :: j < k && InTime(log[j], id, t) && m[id] == Position(enc, log, j)
               && forall i: nat :: j < i < k ==> !InTime(log[i], id, t)
      else forall i: nat :: i < k ==> !InTime(log[i], id, t)
  {
    if k > 0 {
      LatestIsLast(enc, log, k - 1, t, id);
      var before := LatestAt(enc, log, k - 1, t);
      if InTime(log[k - 1], id, t) {
        assert LatestAt(enc, log, k, t)[id] == Position(enc, log, k - 1);
      } else if id in before {
        var j: nat :| j < k - 1 && InTime(log[j], id, t) && before[id] == Position(enc, log, j)
                 && forall i: nat :: j < i < k - 1 ==> !InTime(log[i], id, t);
        assert forall i: nat :: j < i < k ==> !InTime(log[i], id, t);
      }
    }
  }

  predicate InTime(e: Entry, id: nat, t: int) {
    e.DataEntry? && e.data.id == id && e.data.time.Some? && e.data.time.value <= t
  }

  lemma {:induction false} LatestIsBefore(enc: Encoding, log: seq<Entry>, k: nat, t: int)
    requires k <= |log|
    ensures forall id :: id in LatestAt(enc, log, k, t) ==> 0 < LatestAt(enc, log, k, t)[id] < Position(enc, log, k)
  {
    if k > 0 {
      LatestIsBefore(enc, log, k - 1, t);
      PositionNext(enc, log, k - 1);
    }
  }

  /** What does not hold data does not matter. */
  lemma {:induction false} LatestSkips(enc: Encoding, log: seq<Entry>, j: nat, k: nat, t: int)
    requires j <= k <= |log| && forall i :: j <= i < k ==> !log[i].DataEntry? || log[i].data.time == None || log[i].data.time.value > t
    ensures LatestAt(enc, log, k, t) == LatestAt(enc, log, j, t)
    decreases k
  {
    if j < k {
      LatestSkips(enc, log, j, k - 1, t);
    }
  }

  /** Up to a marker of time at most `t`, everything is in time: the marker says what a scan up to it finds. */
  lemma {:induction false} LatestOfAll(enc: Encoding, log: seq<Entry>, k: nat, t: int)
    requires k <= |log| && forall i :: 0 <= i < k && log[i].DataEntry? ==> log[i].data.time.Some? && log[i].data.time.value <= t
    ensures LatestAt(enc, log, k, t) == LastOfEach(enc, log, k)
  {
    if k > 0 {
      LatestOfAll(enc, log, k - 1, t);
    }
  }

  lemma MarkerSaysLatest(enc: Encoding, log: seq<Entry>, k: nat, t: int)
    requires k < |log| && Orderly(enc, log) && Genuine(enc, log) && Monotone(log) && log[k].MarkerEntry? && log[k].time <= t
    ensures LastOf(log[k].offsets, Position(enc, log, k)) == LatestAt(enc, log, k, t)
  {
    assert GenuineAt(enc, log, k);
    MarkerSaysLast(enc, log, k);
    forall i | 0 <= i < k && log[i].DataEntry? ensures log[i].data.time.Some? && log[i].data.time.value <= t {
      assert i <= k - 1 && log[k - 1].DataEntry?;
    }
    LatestOfAll(enc, log, k, t);
  }

  /** A plain scan from block `k` on, which stops at the first item without a time or too late. */
  function PlainScan(enc: Encoding, log: seq<Entry>, k: nat, t: int, m: map<nat, int>): map<nat, int>
    requires k <= |log|
    decreases |log| - k
  {
    if k == |log| then m
    else if !log[k].DataEntry? then PlainScan(enc, log, k + 1, t, m)
    else if log[k].data.time == None || log[k].data.time.value > t then m
    else PlainScan(enc, log, k + 1, t, m[log[k].data.id := Position(enc, log, k)])
  }

  /** With monotone times it finds the last items in time of the whole log. */
  lemma {:induction false} PlainScanFindsLatest(enc: Encoding, log: seq<Entry>, k: nat, t: int)
    requires k <= |log| && Monotone(log)
    ensures PlainScan(enc, log, k, t, LatestAt(enc, log, k, t)) == LatestAt(enc, log, |log|, t)
    decreases |log| - k
  {
    if k < |log| {
      if !log[k].DataEntry? || (log[k].data.time.Some? && log[k].data.time.value <= t) {
        PlainScanFindsLatest(enc, log, k + 1, t);
      } else {
        LatestSkips(enc, log, k, |log|, t);
      }
    }
  }

  // ----- what the index says

  function ReadIndexRecords(b: seq<byte>, n: nat): (r: Read<seq<IndexRecord>>)
    ensures !r.Abort?
    decreases n
  {
    if n == 0 then Got([], b)
    else
      var (id, b1) :- Varuint.Decode(b);
      var (schemaAt, b2) :- ReadLE(b1, 8);
      var (lastAt, b3) :- ReadLE(b2, 8);
      var (later, b4) :- ReadIndexRecords(b3, n - 1);
      Got([IndexRecord(id, schemaAt, Signed64(lastAt))] + later, b4)
  }

  lemma {:induction false} IndexRecordsRead(records: seq<IndexRecord>, rest: seq<byte>)
    requires forall i :: 0 <= i < |records| ==> IsIndexRecord(records[i])
    ensures ReadIndexRecords(IndexRecords(records) + rest, |records|) == Got(records, rest)
  {
    if records == [] {
      assert [] + rest == rest;
    } else {
      var r := records[0];
      assert IsIndexRecord(r);
      var b3 := IndexRecords(records[1..]) + rest;
      var p, q := LE(Bits64(r.schemaAt), 8), LE(Bits64(r.lastAt), 8);
      Assoc(Varuint.Encode(r.id), p + (q + IndexRecords(records[1..])), rest);
      Assoc(p, q + IndexRecords(records[1..]), rest);
      Assoc(q, IndexRecords(records[1..]), rest);
      assert IndexRecords(records) + rest == Varuint.Encode(r.id) + (p + (q + b3));
      Varuint.DecodeAfterEncode(r.id, p + (q + b3));
      Pow256Values();
      assert Bits64(r.schemaAt) == r.schemaAt;
      ReadLEAfterLE(r.schemaAt, 8, q + b3);
      ReadLEAfterLE(Bits64(r.lastAt), 8, b3);
      Signed64OfBits64(r.lastAt);
      IndexRecordsRead(records[1..], rest);
      assert [r] + records[1..] == records;
    }
  }

  function MaxLast(records: seq<IndexRecord>, f: int): int {
    if records == [] then f else MaxLast(records[1..], Max(f, records[0].lastAt))
  }

  lemma {:induction false} MaxLastIs(records: seq<IndexRecord>, f: int)
    ensures MaxLast(records, f) >= f
    ensures forall i :: 0 <= i < |records| ==> records[i].lastAt <= MaxLast(records, f)
    ensures MaxLast(records, f) == f || exists i :: 0 <= i < |records| && records[i].lastAt == MaxLast(records, f)
  {
    if records != [] {
      MaxLastIs(records[1..], Max(f, records[0].lastAt));
      var r := MaxLast(records, f);
      if r != f && records[0].lastAt != r {
        var i :| 0 <= i < |records[1..]| && records[1..][i].lastAt == r;
        assert records[i + 1].lastAt == r;
      }
      forall i | 0 <= i < |records| ensures records[i].lastAt <= r {
        assert i > 0 ==> records[i] == records[1..][i - 1];
      }
    }
  }

  lemma {:induction false} IndexLists(m: Schemas, ids: seq<nat>)
    ensures forall i :: 0 <= i < |IndexOf(m, ids)| ==>
              var r := IndexOf(m, ids)[i];
              r.id in ids && r.id in m && r.schemaAt == m[r.id].schemaAt && r.lastAt == m[r.id].lastAt
    ensures forall id :: id in ids && id in m ==>
              exists i :: 0 <= i < |IndexOf(m, ids)| && IndexOf(m, ids)[i] == IndexRecord(id, m[id].schemaAt, m[id].lastAt)
  {
    if ids != [] {
      IndexLists(m, ids[1..]);
      var all, later := IndexOf(m, ids), IndexOf(m, ids[1..]);
      forall id | id in ids && id in m
        ensures exists i :: 0 <= i < |all| && all[i] == IndexRecord(id, m[id].schemaAt, m[id].lastAt)
      {
        if id == ids[0] {
          assert all[0] == IndexRecord(id, m[id].schemaAt, m[id].lastAt);
        } else {
          assert id in ids[1..];
          var i :| 0 <= i < |later| && later[i] == IndexRecord(id, m[id].schemaAt, m[id].lastAt);
          assert all[if ids[0] in m then i + 1 else i] == later[i];
        }
      }
    }
  }

  /** `f` is the furthest of the last data blocks, or -1 when there is none. */
  ghost predicate Tops(m: Schemas, f: int) {
    && f >= -1
    && (forall id :: id in m ==> m[id].lastAt <= f)
    && (f >= 0 ==> exists id :: id in m && m[id].lastAt == f)
  }

  /** The last data block of all is the last of its identifier. */
  lemma {:induction false} FurthestIsLast(enc: Encoding, log: seq<Entry>, k: nat)
    requires k <= |log| && Orderly(enc, log)
    ensures Tops(History(enc, log, k), Furthest(enc, log, 0, k, -1))
    ensures Furthest(enc, log, 0, k, -1) < Position(enc, log, k)
  {
    if k > 0 {
      var m, f, e, at := History(enc, log, k - 1), Furthest(enc, log, 0, k - 1, -1), log[k - 1], Position(enc, log, k - 1);
      FurthestIsLast(enc, log, k - 1);
      assert OrderlyAt(enc, log, k - 1);
      PositionNext(enc, log, k - 1);
      TopsStep(m, e, at, f);
      assert Furthest(enc, log, 0, k, -1) == if e.DataEntry? then Max(f, at) else f;
    }
  }

  lemma TopsStep(m: Schemas, e: Entry, at: nat, f: int)
    requires Tops(m, f) && f < at
    requires e.SchemaEntry? ==> e.id !in m
    requires e.DataEntry? ==> e.data.id in m
    ensures Tops(Note(m, e, at), if e.DataEntry? then Max(f, at) else f)
  {
    var n, g := Note(m, e, at), if e.DataEntry? then Max(f, at) else f;
    if e.DataEntry? {
      assert n[e.data.id].lastAt == g;
    } else if f >= 0 {
      var id :| id in m && m[id].lastAt == f;
      assert id in n && n[id].lastAt == f;
    }
  }

  /** The index's furthest block is the scan's, as soon as there is any data. */
  lemma IndexFurthest(enc: Encoding, log: seq<Entry>, k: nat)
    requires k <= |log| && Orderly(enc, log)
    ensures
      var m, f := History(enc, log, k), Furthest(enc, log, 0, k, -1);
      MaxLast(IndexOf(m, Ascending(m.Keys)), 0) == if f >= 0 then f else 0
  {
    var m, f := History(enc, log, k), Furthest(enc, log, 0, k, -1);
    var records := IndexOf(m, Ascending(m.Keys));
    FurthestIsLast(enc, log, k);
    IndexLists(m, Ascending(m.Keys));
    MaxLastIs(records, 0);
    if f >= 0 {
      var id :| id in m && m[id].lastAt == f;
      assert id in Ascending(m.Keys);
      var i :| 0 <= i < |records| && records[i] == IndexRecord(id, m[id].schemaAt, m[id].lastAt);
      assert records[i].lastAt == f;
    }
  }
}
