/** Writer and reader together: what is recorded is played back, and can be sought. */
module LogRoundTrip {
  import opened Bytes
  import opened LogFormat
  import opened LogHistory
  import opened LogScan
  import opened ItemFilter
  import opened FileReader
  import BinaryFormat
  import opened SeekSpacing
  import FileWriter

  /** What a client asks of the writer, with identifiers it was handed out before. */
  datatype Call =
    | SchemaCall(id: nat, schema: seq<byte>)
    | DataCall(id: nat, time: int, data: seq<byte>, compress: bool, checksum: bool)

  /** An item as the client gave it. */
  datatype Given = Given(id: nat, time: int, data: seq<byte>)

  function GivenBy(calls: seq<Call>): seq<Given> {
    if calls == [] then []
    else
      var before, call := GivenBy(calls[..|calls| - 1]), calls[|calls| - 1];
      if call.DataCall? then before + [Given(call.id, call.time, call.data)] else before
  }

  // ----- proper use: one schema per identifier, before its data, and times that do not decrease

  ghost predicate Proper(names: map<nat, seq<byte>>, known: set<nat>, last: int, call: Call) {
    match call
    case SchemaCall(id, schema) =>
      && id in names && id !in known && id < TWO64 && BinaryFormat.IsString(names[id])
      && Parses(SchemaEntry(id, names[id], schema))
    case DataCall(id, time, _, _, _) => id in known && id < TWO64 && last <= time && IsTime(time)
  }

  function KnownAfter(known: set<nat>, call: Call): set<nat> {
    if call.SchemaCall? then known + {call.id} else known
  }

  function LastAfter(last: int, call: Call): int {
    if call.DataCall? then call.time else last
  }

  ghost predicate AllProper(names: map<nat, seq<byte>>, known: set<nat>, last: int, calls: seq<Call>)
    decreases |calls|
  {
    calls != [] ==>
      && Proper(names, known, last, calls[0])
      && AllProper(names, KnownAfter(known, calls[0]), LastAfter(last, calls[0]), calls[1..])
  }

  /** The log of such a use: `known` are the identifiers with a schema block, and no time is above `last`. */
  ghost predicate Usual(enc: Encoding, log: seq<Entry>, known: set<nat>, last: int) {
    && Orderly(enc, log) && Monotone(log) && AllGivenFit(log) && AllParse(log)
    && History(enc, log, |log|).Keys == known && NoneAfter(log, last)
  }

  ghost predicate NoneAfter(log: seq<Entry>, last: int) {
    forall i :: 0 <= i < |log| && log[i].DataEntry? ==> log[i].data.time.Some? && log[i].data.time.value <= last
  }

  ghost predicate ProperEntry(known: set<nat>, last: int, e: Entry) {
    && GivenFits(e) && Parses(e)
    && (e.SchemaEntry? ==> e.id !in known)
    && (e.DataEntry? ==> e.data.id in known && e.data.time.Some? && last <= e.data.time.value)
  }

  lemma UsualGrows(enc: Encoding, log: seq<Entry>, known: set<nat>, last: int, e: Entry)
    requires Usual(enc, log, known, last) && ProperEntry(known, last, e)
    ensures Usual(enc, log + [e], if e.SchemaEntry? then known + {e.id} else known,
                  if e.DataEntry? then e.data.time.value else last)
  {
    var all := log + [e];
    LogGrows(enc, log, e);
    forall k: nat | k < |all| ensures OrderlyAt(enc, all, k) {
      HistoryStays(enc, log, [e], k);
      if k < |log| {
        assert OrderlyAt(enc, log, k);
      }
    }
    forall k: nat | k < |all| ensures GivenFits(all[k]) {
      if k < |log| {
        assert GivenFits(log[k]);
      }
    }
    assert forall i :: 0 <= i < |log| ==> all[i] == log[i];
    assert AllParse(all) by {
      assert forall i :: 0 <= i < |log| ==> Parses(log[i]);
    }
  }

  // ----- the items in a log

  /** The data blocks from block `k` on. */
  function PlacesFrom(log: seq<Entry>, k: nat): (places: seq<nat>)
    requires k <= |log|
    ensures forall i :: 0 <= i < |places| ==> k <= places[i] < |log| && log[places[i]].DataEntry?
    decreases |log| - k
  {
    if k == |log| then [] else if log[k].DataEntry? then [k] + PlacesFrom(log, k + 1) else PlacesFrom(log, k + 1)
  }

  lemma {:induction false} PlacesGrow(log: seq<Entry>, e: Entry, k: nat)
    requires k <= |log|
    ensures PlacesFrom(log + [e], k) == PlacesFrom(log, k) + if e.DataEntry? then [|log|] else []
    decreases |log| - k
  {
    if k == |log| {
      assert PlacesFrom(log + [e], k + 1) == [];
    } else {
      PlacesGrow(log, e, k + 1);
    }
  }

  /** The data block stands for the item. */
  predicate Stands(codec: Codec, e: Entry, g: Given) {
    e.DataEntry? && e.data.id == g.id && e.data.time == Some(g.time) && e.data.stored == Stored(codec, e.data.packed, g.data)
  }

  /** The data blocks of the log are those items, in order. */
  ghost predicate Recorded(codec: Codec, log: seq<Entry>, given: seq<Given>) {
    var places := PlacesFrom(log, 0);
    |places| == |given| && forall i :: 0 <= i < |given| ==> Stands(codec, log[places[i]], given[i])
  }

  lemma RecordedGrows(codec: Codec, log: seq<Entry>, given: seq<Given>, e: Entry, more: seq<Given>)
    requires Recorded(codec, log, given)
    requires if e.DataEntry? then |more| == 1 && Stands(codec, e, more[0]) else more == []
    ensures Recorded(codec, log + [e], given + more)
  {
    PlacesGrow(log, e, 0);
    var places, all := PlacesFrom(log, 0), PlacesFrom(log + [e], 0);
    forall i | 0 <= i < |given + more| ensures Stands(codec, (log + [e])[all[i]], (given + more)[i]) {
      if i < |given| {
        assert all[i] == places[i];
      }
    }
  }

  // ----- recording

  /** The writer's log so far holds these items. */
  ghost predicate Recording(w: FileWriter.Writer, known: set<nat>, last: int, given: seq<Given>)
    reads w
  {
    Usual(w.enc, w.log, known, last) && Recorded(w.codec, w.log, given)
  }

  /** Its markers are where they should be, and the writer remembers when the next one is due. */
  ghost predicate Marking(w: FileWriter.Writer)
    reads w
  {
    && Spaced(w.log, w.options.seekBlockPeriod)
    && (w.options.seekBlockPeriod > 0 ==> w.lastSeekBlock == LastTime(w.log, |w.log|))
  }

  /** A recording: the calls, one after the other, then the end of the log.  Not `ok` is the failed assertion of a
      header that does not fit. */
  method Record(w: FileWriter.Writer, calls: seq<Call>) returns (ok: bool, ghost known: set<nat>, ghost last: int)
    requires w.Valid() && w.log == [] && AllProper(w.reverseIdentifierMap, {}, -0x8000_0000_0000_0000, calls)
    requires w.lastSeekBlock == None
    modifies w, w.out
    ensures w.Valid() && (ok ==> Recording(w, known, last, GivenBy(calls)))
    ensures ok ==> Spaced(w.log, w.options.seekBlockPeriod)
    ensures ok && w.options.indexBlock ==> w.log != [] && w.log[|w.log| - 1].IndexEntry?
  {
    known, last := {}, -0x8000_0000_0000_0000;
    ghost var names := w.reverseIdentifierMap;
    for i := 0 to |calls|
      invariant w.Valid() && w.reverseIdentifierMap == names && Marking(w) && Recording(w, known, last, GivenBy(calls[..i]))
      invariant AllProper(names, known, last, calls[i..])
    {
      OneCallMore(names, known, last, calls, i);
      ok := Perform(w, calls[i], known, last, GivenBy(calls[..i]));
      if !ok {
        return;
      }
      known, last := KnownAfter(known, calls[i]), LastAfter(last, calls[i]);
    }
    assert calls[..|calls|] == calls;
    ok := true;
    Finish(w, known, last, GivenBy(calls));
  }

  method Finish(w: FileWriter.Writer, ghost known: set<nat>, ghost last: int, ghost given: seq<Given>)
    requires w.Valid() && Recording(w, known, last, given) && Marking(w)
    modifies w, w.out
    ensures w.Valid() && Recording(w, known, last, given) && Spaced(w.log, w.options.seekBlockPeriod)
    ensures w.options.indexBlock ==> w.log != [] && w.log[|w.log| - 1].IndexEntry?
  {
    if w.options.indexBlock {
      ghost var e := IndexOfAll(w.schemas);
      UsualGrows(w.enc, w.log, known, last, e);
      RecordedGrows(w.codec, w.log, given, e, []);
      SpacedGrows(w.log, e, w.options.seekBlockPeriod);
      assert given + [] == given;
    }
    w.Close();
  }

  lemma OneCallMore(names: map<nat, seq<byte>>, known: set<nat>, last: int, calls: seq<Call>, i: nat)
    requires i < |calls| && AllProper(names, known, last, calls[i..])
    ensures Proper(names, known, last, calls[i])
    ensures AllProper(names, KnownAfter(known, calls[i]), LastAfter(last, calls[i]), calls[i + 1..])
    ensures GivenBy(calls[..i + 1])
         == if calls[i].DataCall? then GivenBy(calls[..i]) + [Given(calls[i].id, calls[i].time, calls[i].data)]
            else GivenBy(calls[..i])
  {
    assert calls[..i + 1][..i] == calls[..i] && calls[i..][1..] == calls[i + 1..];
  }

  ghost predicate HeaderIsSmall(w: FileWriter.Writer, m: Schemas, at: nat, call: Call)
    requires call.DataCall?
  {
    FileWriter.HeaderSize(FileWriter.DataFor(w.options, w.codec, m, at, Some(call.time), 0, call.id, call.data, call.compress,
                                             call.checksum)) <= FileWriter.PADDING
  }

  /** One call; it fails if and only if it is for data whose header does not fit. */
  method Perform(w: FileWriter.Writer, call: Call, ghost known: set<nat>, ghost last: int, ghost given: seq<Given>)
    returns (ok: bool)
    requires w.Valid() && Recording(w, known, last, given) && Proper(w.reverseIdentifierMap, known, last, call)
    requires Marking(w)
    modifies w, w.out
    ensures w.Valid() && w.reverseIdentifierMap == old(w.reverseIdentifierMap)
    ensures ok == (call.DataCall? ==> HeaderIsSmall(w, old(w.schemas), |old(w.out.data)|, call))
    ensures ok ==> Marking(w)
    ensures ok ==> Recording(w, KnownAfter(known, call), LastAfter(last, call),
                            if call.DataCall? then given + [Given(call.id, call.time, call.data)] else given)
  {
    match call
    case SchemaCall(id, schema) => ok := PerformSchema(w, id, schema, known, last, given);
    case DataCall(_, _, _, _, _) => ok := PerformData(w, call, known, last, given);
  }

  method PerformSchema(w: FileWriter.Writer, id: nat, schema: seq<byte>, ghost known: set<nat>, ghost last: int,
                       ghost given: seq<Given>)
    returns (ok: bool)
    requires w.Valid() && Recording(w, known, last, given) && Marking(w)
    requires Proper(w.reverseIdentifierMap, known, last, SchemaCall(id, schema))
    modifies w, w.out
    ensures w.Valid() && w.reverseIdentifierMap == old(w.reverseIdentifierMap) && ok
    ensures Marking(w) && Recording(w, known + {id}, last, given)
  {
    ghost var e := SchemaEntry(id, w.reverseIdentifierMap[id], schema);
    UsualGrows(w.enc, w.log, known, last, e);
    RecordedGrows(w.codec, w.log, given, e, []);
    SpacedGrows(w.log, e, w.options.seekBlockPeriod);
    LastTimeStays(w.log, [e], |w.log|);
    assert given + [] == given;
    ok := w.WriteSchema(id, schema);
  }

  method PerformData(w: FileWriter.Writer, call: Call, ghost known: set<nat>, ghost last: int, ghost given: seq<Given>)
    returns (ok: bool)
    requires w.Valid() && Recording(w, known, last, given) && Marking(w) && call.DataCall?
    requires Proper(w.reverseIdentifierMap, known, last, call)
    modifies w, w.out
    ensures w.Valid() && w.reverseIdentifierMap == old(w.reverseIdentifierMap)
    ensures ok == HeaderIsSmall(w, old(w.schemas), |old(w.out.data)|, call)
    ensures ok ==> Marking(w) && Recording(w, known, call.time, given + [Given(call.id, call.time, call.data)])
  {
    ghost var was, period := w.log, w.options.seekBlockPeriod;
    ghost var e := DataEntry(FileWriter.DataFor(w.options, w.codec, w.schemas, |w.out.data|, Some(call.time), 0, call.id,
                                                call.data, call.compress, call.checksum));
    ok := w.WriteData(Some(call.time), 0, call.id, call.data, call.compress, call.checksum);
    if ok {
      KeepsSpacing(was, w.log, e, call.time, period);
      DataKeeps(w.enc, w.codec, was, w.log, e, known, last, given, Given(call.id, call.time, call.data));
    }
  }

  lemma DataKeeps(enc: Encoding, codec: Codec, was: seq<Entry>, log: seq<Entry>, e: Entry, known: set<nat>, last: int,
                  given: seq<Given>, g: Given)
    requires Usual(enc, was, known, last) && Recorded(codec, was, given) && e.DataEntry? && Stands(codec, e, g)
    requires ProperEntry(known, last, e)
    requires log == was + [e]
          || (|log| == |was| + 2 && log[..|was| + 1] == was + [e] && log[|was| + 1].MarkerEntry?)
    ensures Usual(enc, log, known, g.time) && Recorded(codec, log, given + [g])
  {
    UsualGrows(enc, was, known, last, e);
    RecordedGrows(codec, was, given, e, [g]);
    if log != was + [e] {
      WithMarker(enc, codec, was + [e], log, known, g.time, given + [g]);
    }
  }

  /** A data block, with a marker of its time or without. */
  lemma KeepsSpacing(was: seq<Entry>, log: seq<Entry>, e: Entry, time: int, period: nat)
    requires Spaced(was, period) && e.DataEntry? && e.data.time == Some(time)
    requires var last := LastTime(was, |was|);
             if period > 0 && last.Some? && time - last.value >= period then
               |log| == |was| + 2 && log[..|was| + 1] == was + [e] && log[|was| + 1].MarkerEntry? && log[|was| + 1].time == time
             else log == was + [e]
    ensures Spaced(log, period)
    ensures period > 0 ==> var last := LastTime(was, |was|);
                           LastTime(log, |log|) == if last == None || time - last.value >= period then Some(time) else last
  {
    LastTimeStays(was, [e], |was|);
    if log == was + [e] {
      SpacedGrows(was, e, period);
    } else {
      assert log == was + [e] + [log[|was| + 1]];
      SpacedGrowsByTwo(was, e, log[|was| + 1], period);
    }
  }

  lemma WithMarker(enc: Encoding, codec: Codec, log: seq<Entry>, all: seq<Entry>, known: set<nat>, last: int,
                   given: seq<Given>)
    requires Usual(enc, log, known, last) && Recorded(codec, log, given)
    requires |all| == |log| + 1 && all[..|log|] == log && all[|log|].MarkerEntry?
    ensures Usual(enc, all, known, last) && Recorded(codec, all, given)
  {
    assert all == log + [all[|log|]];
    UsualGrows(enc, log, known, last, all[|log|]);
    RecordedGrows(codec, log, given, all[|log|], []);
    assert given + [] == given;
  }

  // ----- playing back

  /** An iteration over everything goes to every data block. */
  lemma {:induction false} VisitsAll(enc: Encoding, log: seq<Entry>, rs: seq<Record>, k: nat)
    requires k <= |log|
    ensures
      var visited, places := VisitedFrom(enc, log, rs, EVERYTHING, k), PlacesFrom(log, k);
      |visited| == |places| && forall i :: 0 <= i < |places| ==> visited[i] == Position(enc, log, places[i])
    decreases |log| - k
  {
    if k < |log| {
      VisitsAll(enc, log, Learn(rs, log[k]), k + 1);
    }
  }

  /** The item read is the one given. */
  predicate Same(item: Item, g: Given) {
    item.id == g.id && item.time == Some(g.time) && item.data == g.data
  }

  /** A reader of the log gives back the items recorded, in order: the iteration over everything, each item read where
      it stops. */
  method PlayBack(r: Reader, ghost given: seq<Given>) returns (items: seq<Item>)
    requires r.Valid() && Orderly(r.enc, r.log) && AllParse(r.log) && Faithful(r.codec) && Recorded(r.codec, r.log, given)
    modifies r, r.stream
    ensures r.Valid() && |items| == |given| && forall i :: 0 <= i < |given| ==> Same(items[i], given[i])
  {
    ghost var rs := r.records;
    AllParseLearnsAll(rs, r.log, 0, |r.log|);
    VisitsAll(r.enc, r.log, rs, 0);
    var ok, visited := r.Iterate(EVERYTHING);
    assert ok;
    items := [];
    for i := 0 to |visited|
      invariant r.Valid() && r.records == LearnAll(rs, r.log, 0, |r.log|)
      invariant |items| == i && forall n :: 0 <= n < i ==> Same(items[n], given[n])
    {
      var item := ReadGiven(r, visited[i], given[i], PlacesFrom(r.log, 0)[i], rs);
      items := items + [item];
    }
  }

  method ReadGiven(r: Reader, index: nat, ghost g: Given, ghost j: nat, ghost rs: seq<Record>) returns (item: Item)
    requires r.Valid() && Orderly(r.enc, r.log) && Faithful(r.codec) && r.records == LearnAll(rs, r.log, 0, |r.log|)
    requires j < |r.log| && index == Position(r.enc, r.log, j) && Stands(r.codec, r.log[j], g)
    modifies r.stream
    ensures r.Valid() && Same(item, g)
  {
    r.ReadsBackAs(j, g.data);
    IsKnown(r.enc, r.log, rs, j);
    var read := r.Read(index);
    item := read.item;
  }

  lemma IsKnown(enc: Encoding, log: seq<Entry>, rs: seq<Record>, j: nat)
    requires j < |log| && Orderly(enc, log) && log[j].DataEntry?
    ensures Find(LearnAll(rs, log, 0, |log|), log[j].data.id).Some?
  {
    assert OrderlyAt(enc, log, j);
    HistoryKeeps(enc, log, j, |log|, log[j].data.id);
    ScanAdds(enc, log, rs, |log|, log[j].data.id);
  }

  /** The end of the file is that of an index of less than 2^32 bytes, or not taken for one. */
  ghost predicate ClearEnd(log: seq<Entry>, file: seq<byte>) {
    if log != [] && log[|log| - 1].IndexEntry? then TrailingSize(log[|log| - 1].records) < TWO32
    else |file| >= 8 ==> file[|file| - 8..] != TRAILER
  }

  /** A reader on the file of a recording: it finds what its constructor looks for. */
  method Open(w: FileWriter.Writer, verify: bool, ghost known: set<nat>, ghost last: int) returns (r: Reader)
    requires w.Valid() && Usual(w.enc, w.log, known, last) && ClearEnd(w.log, w.out.data)
    requires |w.out.data| < 0x8000_0000_0000_0000
    ensures r.Valid() && fresh(r) && fresh(r.stream) && r.Known()
    ensures r.log == w.log && r.enc == w.enc && r.crc == w.crc && r.codec == w.codec && r.stream.buffer == w.out.data
    ensures r.hasIndex <==> |w.log| >= 2 && w.log[|w.log| - 1].IndexEntry?
  {
    forall k: nat | k < |w.log| ensures FitsAt(w.crc, w.log, k) {
      WrittenFits(w.crc, w.enc, w.log, k);
    }
    r := new Reader(w.crc, w.codec, verify, w.out.data, w.enc, w.log);
    if w.log != [] && w.log[|w.log| - 1].IndexEntry? {
      NoMoreRecords(w.log[|w.log| - 1].records);
    }
    var use := r.MaybeProcessIndex();
  }

  lemma NoMoreRecords(records: seq<IndexRecord>)
    ensures |records| <= TrailingSize(records)
  {
    ManyBytes(records);
  }

  lemma {:induction false} ManyBytes(records: seq<IndexRecord>)
    ensures |records| <= |IndexRecords(records)|
  {
    if records != [] {
      ManyBytes(records[1..]);
    }
  }

  /** Whatever was recorded by proper use comes back, all of it and in order. */
  method RecordedIsPlayedBack(w: FileWriter.Writer, verify: bool, ghost known: set<nat>, ghost last: int,
                              ghost given: seq<Given>)
    returns (items: seq<Item>)
    requires w.Valid() && Recording(w, known, last, given) && Faithful(w.codec)
    requires |w.out.data| < 0x8000_0000_0000_0000 && ClearEnd(w.log, w.out.data)
    ensures |items| == |given| && forall i :: 0 <= i < |given| ==> Same(items[i], given[i])
  {
    var r := Open(w, verify, known, last);
    items := PlayBack(r, given);
  }

  /** And seeking in it finds the last item of every record up to the time asked for. */
  method RecordedIsSought(w: FileWriter.Writer, verify: bool, timestamp: int, ghost known: set<nat>, ghost last: int)
    returns (result: map<nat, int>)
    requires w.Valid() && Usual(w.enc, w.log, known, last) && Faithful(w.codec)
    requires |w.out.data| < 0x8000_0000_0000_0000 && ClearEnd(w.log, w.out.data)
    requires NoForgery(w.crc, w.enc, w.log, w.out.data)
    ensures result == LatestAt(w.enc, w.log, |w.log|, timestamp)
  {
    var r := Open(w, verify, known, last);
    result := SeekIn(r, timestamp);
  }

  method SeekIn(r: Reader, timestamp: int) returns (result: map<nat, int>)
    requires r.Valid() && Genuine(r.enc, r.log) && Orderly(r.enc, r.log) && Monotone(r.log) && AllParse(r.log)
    requires Faithful(r.codec) && Readable(r.codec, r.log) && r.Known()
    requires NoForgery(r.crc, r.enc, r.log, r.stream.buffer)
    modifies r, r.stream
    ensures result == LatestAt(r.enc, r.log, |r.log|, timestamp)
  {
    AllParseLearnsAll(r.records, r.log, 0, |r.log|);
    PlainScanFindsLatest(r.enc, r.log, 0, timestamp);
    var ok;
    ok, result := r.Seek(timestamp);
  }
}
