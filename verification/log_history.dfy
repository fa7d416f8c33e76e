/** What a log has recorded so far, as its writer remembers it, and what its blocks say about one another. */
module LogHistory {
  import opened Bytes
  import opened Framing
  import opened LogFormat
  import opened SeekMarker
  import BinaryFormat

  /** SchemaRecord: where the schema block and the last data block start; -1 when there is no data block. */
  datatype SchemaRecord = SchemaRecord(name: seq<byte>, schema: seq<byte>, schemaAt: nat, lastAt: int)

  type Schemas = map<nat, SchemaRecord>

  /** A schema block starts its identifier's record anew; a data block of an unknown identifier makes an empty one. */
  function Note(m: Schemas, e: Entry, at: nat): Schemas {
    match e
    case SchemaEntry(id, name, schema) => m[id := SchemaRecord(name, schema, at, -1)]
    case DataEntry(d) =>
      m[d.id := if d.id in m then m[d.id].(lastAt := at) else SchemaRecord([], [], 0, at)]
    case _ => m
  }

  function History(enc: Encoding, log: seq<Entry>, k: nat): Schemas
    requires k <= |log|
  {
    if k == 0 then map[] else Note(History(enc, log, k - 1), log[k - 1], Position(enc, log, k - 1))
  }

  lemma {:induction false} HistoryStays(enc: Encoding, log: seq<Entry>, more: seq<Entry>, k: nat)
    requires k <= |log|
    ensures History(enc, log + more, k) == History(enc, log, k)
  {
    if k > 0 {
      HistoryStays(enc, log, more, k - 1);
      PositionsStay(enc, log, more, k - 1);
    }
  }

  /** GetPreviousOffset: how far back the last data block of `id` is, 0 when there is none. */
  function PreviousOffset(m: Schemas, id: nat, at: nat): nat {
    if id !in m || m[id].lastAt < 0 || at < m[id].lastAt then 0 else at - m[id].lastAt
  }

  // ----- identifiers in ascending order, as a std::map lists them

  function Ascending(s: set<nat>): (ids: seq<nat>)
    ensures forall x :: x in s <==> x in ids
    ensures forall i, j :: 0 <= i < j < |ids| ==> ids[i] != ids[j]
    ensures |ids| == |s|
  {
    if s == {} then []
    else
      ThereIsALeast(s, var z :| z in s; z);
      var x :| x in s && forall y :: y in s ==> x <= y;
      [x] + Ascending(s - {x})
  }

  lemma {:induction false} ThereIsALeast(s: set<nat>, x: nat)
    requires x in s
    ensures exists w :: w in s && forall y :: y in s ==> w <= y
    decreases x
  {
    if y: nat :| y in s && y < x {
      ThereIsALeast(s, y);
    }
  }

  /** The pairs of a seek marker at `at`: the identifiers that have data, and how far back it is. */
  function MarkerOffsets(m: Schemas, ids: seq<nat>, at: nat): seq<(nat, nat)> {
    if ids == [] then []
    else
      var later := MarkerOffsets(m, ids[1..], at);
      if ids[0] in m && 0 <= m[ids[0]].lastAt <= at then [(ids[0], at - m[ids[0]].lastAt)] + later else later
  }

  function MarkerOf(m: Schemas, time: int, at: nat): Entry {
    MarkerEntry(time, MarkerOffsets(m, Ascending(m.Keys), at))
  }

  function IndexOf(m: Schemas, ids: seq<nat>): seq<IndexRecord> {
    if ids == [] then []
    else if ids[0] in m then [IndexRecord(ids[0], m[ids[0]].schemaAt, m[ids[0]].lastAt)] + IndexOf(m, ids[1..])
    else IndexOf(m, ids[1..])
  }

  function IndexOfAll(m: Schemas): Entry {
    IndexEntry(IndexOf(m, Ascending(m.Keys)))
  }

  // ----- a log is genuine when its blocks say the truth about those before them

  ghost predicate GenuineAt(enc: Encoding, log: seq<Entry>, k: nat)
    requires k < |log|
  {
    var m, at := History(enc, log, k), Position(enc, log, k);
    match log[k]
    case SchemaEntry(_, _, _) => true
    case DataEntry(d) => d.previous.Some? ==> d.previous.value == PreviousOffset(m, d.id, at)
    case MarkerEntry(time, offsets) =>
      log[k] == MarkerOf(m, time, at) && k > 0 && log[k - 1].DataEntry? && log[k - 1].data.time == Some(time)
    case IndexEntry(_) => log[k] == IndexOfAll(m)
  }

  ghost predicate Genuine(enc: Encoding, log: seq<Entry>) {
    forall k: nat :: k < |log| ==> GenuineAt(enc, log, k)
  }

  /** `e` says the truth about the log it is to be added to. */
  ghost predicate Tells(enc: Encoding, log: seq<Entry>, e: Entry) {
    var m, at := History(enc, log, |log|), |FileBytes(enc, log)|;
    match e
    case SchemaEntry(_, _, _) => true
    case DataEntry(d) => d.previous.Some? ==> d.previous.value == PreviousOffset(m, d.id, at)
    case MarkerEntry(time, offsets) =>
      e == MarkerOf(m, time, at) && log != [] && log[|log| - 1].DataEntry? && log[|log| - 1].data.time == Some(time)
    case IndexEntry(_) => e == IndexOfAll(m)
  }

  lemma EndOfLog(enc: Encoding, log: seq<Entry>)
    ensures Position(enc, log, |log|) == |FileBytes(enc, log)|
  {
    assert log[..|log|] == log;
  }

  lemma GenuineGrows(enc: Encoding, log: seq<Entry>, e: Entry)
    requires Genuine(enc, log) && Tells(enc, log, e)
    ensures Genuine(enc, log + [e])
  {
    EndOfLog(enc, log);
    forall k: nat | k < |log + [e]| ensures GenuineAt(enc, log + [e], k) {
      HistoryStays(enc, log, [e], k);
      PositionsStay(enc, log, [e], k);
      if k < |log| {
        assert GenuineAt(enc, log, k);
      }
    }
  }

  lemma LogGrows(enc: Encoding, log: seq<Entry>, e: Entry)
    ensures FileBytes(enc, log + [e]) == FileBytes(enc, log) + enc(e)
    ensures History(enc, log + [e], |log| + 1) == Note(History(enc, log, |log|), e, |FileBytes(enc, log)|)
  {
    LogBytesConcat(enc, log, [e]);
    OneEntry(enc, e);
    Assoc(START, LogBytes(enc, log), enc(e));
    EndOfLog(enc, log);
    HistoryStays(enc, log, [e], |log|);
    PositionsStay(enc, log, [e], |log|);
  }

  /** Every identifier has one schema block, before its data. */
  ghost predicate Orderly(enc: Encoding, log: seq<Entry>) {
    forall k: nat :: k < |log| ==> OrderlyAt(enc, log, k)
  }

  ghost predicate OrderlyAt(enc: Encoding, log: seq<Entry>, k: nat)
    requires k < |log|
  {
    match log[k]
    case SchemaEntry(id, _, _) => id !in History(enc, log, k)
    case DataEntry(d) => d.id in History(enc, log, k)
    case _ => true
  }

  // ----- the last data block of an identifier

  predicate IsDataOf(e: Entry, id: nat) {
    e.DataEntry? && e.data.id == id
  }

  /** The last block before `k` that holds data of `id`. */
  function LastData(log: seq<Entry>, k: nat, id: nat): (r: Option<nat>)
    requires k <= |log|
    ensures r.Some? ==> r.value < k && IsDataOf(log[r.value], id)
    ensures forall j :: (if r.Some? then r.value + 1 else 0) <= j < k ==> !IsDataOf(log[j], id)
  {
    if k == 0 then None else if IsDataOf(log[k - 1], id) then Some(k - 1) else LastData(log, k - 1, id)
  }

  /** No schema block of `id` lies behind block `j`, before block `k`. */
  ghost predicate NoRestart(log: seq<Entry>, j: nat, k: nat, id: nat)
    requires k <= |log|
  {
    forall i :: j < i < k ==> !IsSchemaOf(log[i], id)
  }

  predicate IsSchemaOf(e: Entry, id: nat) {
    e.SchemaEntry? && e.id == id
  }

  /** In any log, the writer's record of an identifier points at its last data block if and only if no schema block of
      it lies behind that; otherwise, as when there is no data at all, it points nowhere. */
  lemma {:induction false} RecordPointsAtLastIff(enc: Encoding, log: seq<Entry>, k: nat, id: nat)
    requires k <= |log|
    ensures
      var m, last := History(enc, log, k), LastData(log, k, id);
      && (last.Some? ==> id in m && (m[id].lastAt == Position(enc, log, last.value) <==> NoRestart(log, last.value, k, id)))
      && (id in m && (last.Some? ==> !NoRestart(log, last.value, k, id)) ==> m[id].lastAt == -1)
      && (id in m <==> last.Some? || exists i :: 0 <= i < k && IsSchemaOf(log[i], id))
  {
    if k > 0 {
      RecordPointsAtLastIff(enc, log, k - 1, id);
      var last := LastData(log, k - 1, id);
      if IsSchemaOf(log[k - 1], id) {
        assert last.Some? ==> !NoRestart(log, last.value, k, id);
      } else if !IsDataOf(log[k - 1], id) {
        assert last.Some? ==> (NoRestart(log, last.value, k, id) <==> NoRestart(log, last.value, k - 1, id));
      }
    }
  }

  /** In an orderly log it always points at the last data block. */
  lemma {:induction false} HistoryPointsAtLast(enc: Encoding, log: seq<Entry>, k: nat, id: nat)
    requires k <= |log| && Orderly(enc, log)
    ensures
      var m, last := History(enc, log, k), LastData(log, k, id);
      && (id in m ==> m[id].lastAt == if last.Some? then Position(enc, log, last.value) else -1)
      && (id !in m ==> last == None)
  {
    if k > 0 {
      HistoryPointsAtLast(enc, log, k - 1, id);
      assert OrderlyAt(enc, log, k - 1);
    }
  }

  /** A second schema block makes the writer forget. */
  lemma SchemaAgainForgets(enc: Encoding, log: seq<Entry>, e: Entry)
    requires e.SchemaEntry? && LastData(log, |log|, e.id).Some?
    ensures
      var m, last := History(enc, log + [e], |log| + 1), LastData(log + [e], |log| + 1, e.id);
      last == LastData(log, |log|, e.id) && e.id in m && m[e.id].lastAt == -1
  {
    RecordPointsAtLastIff(enc, log + [e], |log| + 1, e.id);
    LastDataStays(log, e, |log|, e.id);
    var last := LastData(log + [e], |log| + 1, e.id);
    assert IsSchemaOf((log + [e])[|log|], e.id);
    assert !NoRestart(log + [e], last.value, |log| + 1, e.id);
  }

  lemma {:induction false} LastDataStays(log: seq<Entry>, e: Entry, k: nat, id: nat)
    requires k <= |log|
    ensures LastData(log + [e], k, id) == LastData(log, k, id)
  {
    if k > 0 {
      LastDataStays(log, e, k - 1, id);
    }
  }

  // ----- following the previous offsets

  /** The block that starts at `p`. */
  function BlockAt(enc: Encoding, log: seq<Entry>, p: int, k: nat): (r: Option<nat>)
    requires k <= |log|
    ensures r.Some? ==> r.value < k && Position(enc, log, r.value) == p
  {
    if k == 0 then None else if Position(enc, log, k - 1) == p then Some(k - 1) else BlockAt(enc, log, p, k - 1)
  }

  lemma {:induction false} BlockAtPosition(enc: Encoding, log: seq<Entry>, j: nat, k: nat)
    requires j < k <= |log|
    ensures BlockAt(enc, log, Position(enc, log, j), k) == Some(j)
  {
    if j < k - 1 {
      PositionsGrow(enc, log, j, k - 1);
      BlockAtPosition(enc, log, j, k - 1);
    }
  }

  /** The positions met by going back from block `k`, each time by the offset the block holds, until one holds 0. */
  function Walk(enc: Encoding, log: seq<Entry>, k: nat): seq<nat>
    requires k < |log|
    decreases k
  {
    if !log[k].DataEntry? || log[k].data.previous == None || log[k].data.previous.value == 0 then [Position(enc, log, k)]
    else
      var back := BlockAt(enc, log, Position(enc, log, k) - log[k].data.previous.value, k);
      [Position(enc, log, k)] + if back == None then [] else Walk(enc, log, back.value)
  }

  /** The positions of the data blocks of `id` before block `k`, last one first, back to its last schema block. */
  function BackToSchema(enc: Encoding, log: seq<Entry>, k: nat, id: nat): seq<nat>
    requires k <= |log|
  {
    if k == 0 || IsSchemaOf(log[k - 1], id) then []
    else if IsDataOf(log[k - 1], id) then [Position(enc, log, k - 1)] + BackToSchema(enc, log, k - 1, id)
    else BackToSchema(enc, log, k - 1, id)
  }

  /** All of them. */
  function Backwards(enc: Encoding, log: seq<Entry>, k: nat, id: nat): seq<nat>
    requires k <= |log|
  {
    if k == 0 then []
    else if IsDataOf(log[k - 1], id) then [Position(enc, log, k - 1)] + Backwards(enc, log, k - 1, id)
    else Backwards(enc, log, k - 1, id)
  }

  lemma {:induction false} BackFromRecord(enc: Encoding, log: seq<Entry>, k: nat, id: nat)
    requires k <= |log|
    ensures
      var m, last := History(enc, log, k), LastData(log, k, id);
      if last.Some? && id in m && m[id].lastAt >= 0 then
        m[id].lastAt == Position(enc, log, last.value)
        && BackToSchema(enc, log, k, id) == [Position(enc, log, last.value)] + BackToSchema(enc, log, last.value, id)
      else BackToSchema(enc, log, k, id) == [] && (id in m ==> m[id].lastAt == -1)
  {
    if k > 0 && !IsDataOf(log[k - 1], id) && !IsSchemaOf(log[k - 1], id) {
      BackFromRecord(enc, log, k - 1, id);
    }
  }

  /** Going back from a data block of any genuine log visits that block and the earlier ones of its identifier, in
      reverse, back to the last schema block of the identifier, and stops there. */
  lemma {:induction false} WalkStopsAtSchema(enc: Encoding, log: seq<Entry>, k: nat)
    requires k < |log| && Genuine(enc, log) && log[k].DataEntry?
    requires forall j :: 0 <= j <= k && IsDataOf(log[j], log[k].data.id) ==> log[j].data.previous.Some?
    ensures Walk(enc, log, k) == [Position(enc, log, k)] + BackToSchema(enc, log, k, log[k].data.id)
    decreases k
  {
    var id := log[k].data.id;
    var last := LastData(log, k, id);
    assert GenuineAt(enc, log, k);
    BackFromRecord(enc, log, k, id);
    if last.Some? && id in History(enc, log, k) && History(enc, log, k)[id].lastAt >= 0 {
      PositionsGrow(enc, log, last.value, k);
      BlockAtPosition(enc, log, last.value, k);
      WalkStopsAtSchema(enc, log, last.value);
    } else {
      assert [Position(enc, log, k)] + [] == [Position(enc, log, k)];
    }
  }

  /** So it visits all of them if and only if no schema block lies between the first of them and block `k`. */
  lemma {:induction false} BackToSchemaIsAllIff(enc: Encoding, log: seq<Entry>, k: nat, id: nat)
    requires k <= |log|
    ensures |BackToSchema(enc, log, k, id)| <= |Backwards(enc, log, k, id)|
    ensures BackToSchema(enc, log, k, id) == Backwards(enc, log, k, id)
       <==> forall j :: 0 <= j < k && IsDataOf(log[j], id) ==> NoRestart(log, j, k, id)
  {
    if k > 0 {
      BackToSchemaIsAllIff(enc, log, k - 1, id);
      if IsSchemaOf(log[k - 1], id) {
        NoneIffNoData(enc, log, k, id);
        forall j | 0 <= j < k && IsDataOf(log[j], id) ensures !NoRestart(log, j, k, id) {
          assert j < k - 1;
        }
      } else {
        var since, all := BackToSchema(enc, log, k - 1, id), Backwards(enc, log, k - 1, id);
        var p := [Position(enc, log, k - 1)];
        assert (p + since)[1..] == since && (p + all)[1..] == all;
        assert forall j :: 0 <= j < k - 1 ==> (NoRestart(log, j, k, id) <==> NoRestart(log, j, k - 1, id));
      }
    }
  }

  lemma {:induction false} NoneIffNoData(enc: Encoding, log: seq<Entry>, k: nat, id: nat)
    requires k <= |log|
    ensures Backwards(enc, log, k, id) == [] <==> forall j :: 0 <= j < k ==> !IsDataOf(log[j], id)
  {
    if k > 0 {
      NoneIffNoData(enc, log, k - 1, id);
    }
  }

  /** In an orderly log it does. */
  lemma WalkIsBackwards(enc: Encoding, log: seq<Entry>, k: nat)
    requires k < |log| && Orderly(enc, log) && Genuine(enc, log) && log[k].DataEntry?
    requires forall j :: 0 <= j <= k && log[j].DataEntry? ==> log[j].data.previous.Some?
    ensures Walk(enc, log, k) == [Position(enc, log, k)] + Backwards(enc, log, k, log[k].data.id)
  {
    var id := log[k].data.id;
    WalkStopsAtSchema(enc, log, k);
    BackToSchemaIsAllIff(enc, log, k, id);
    forall j | 0 <= j < k && IsDataOf(log[j], id) ensures NoRestart(log, j, k, id) {
      forall i | j < i < k ensures !IsSchemaOf(log[i], id) {
        assert OrderlyAt(enc, log, i);
        RecordPointsAtLastIff(enc, log, i, id);
        assert LastData(log, i, id).Some?;
      }
    }
  }

  // ----- what a seek marker says

  /** Per identifier, where its last data block before `k` starts. */
  function LastOfEach(enc: Encoding, log: seq<Entry>, k: nat): map<nat, int>
    requires k <= |log|
  {
    if k == 0 then map[]
    else
      var m := LastOfEach(enc, log, k - 1);
      if log[k - 1].DataEntry? then m[log[k - 1].data.id := Position(enc, log, k - 1)] else m
  }

  /** The same without the identifiers that a schema block was written for since. */
  function LastSince(enc: Encoding, log: seq<Entry>, k: nat): map<nat, int>
    requires k <= |log|
  {
    if k == 0 then map[]
    else
      var m := LastSince(enc, log, k - 1);
      match log[k - 1]
      case SchemaEntry(id, _, _) => m - {id}
      case DataEntry(d) => m[d.id := Position(enc, log, k - 1)]
      case _ => m
  }

  lemma {:induction false} HistoryIsLastSince(enc: Encoding, log: seq<Entry>, k: nat, id: nat)
    requires k <= |log|
    ensures
      var m, last := History(enc, log, k), LastSince(enc, log, k);
      && (id in last <==> id in m && m[id].lastAt >= 0)
      && (id in last ==> last[id] == m[id].lastAt < Position(enc, log, k))
  {
    if k > 0 {
      HistoryIsLastSince(enc, log, k - 1, id);
      PositionNext(enc, log, k - 1);
      var m, at := History(enc, log, k - 1), Position(enc, log, k - 1);
      assert History(enc, log, k) == Note(m, log[k - 1], at);
    }
  }

  lemma {:induction false} OrderlySince(enc: Encoding, log: seq<Entry>, k: nat)
    requires k <= |log| && Orderly(enc, log)
    ensures LastSince(enc, log, k) == LastOfEach(enc, log, k)
  {
    if k > 0 {
      OrderlySince(enc, log, k - 1);
      assert OrderlyAt(enc, log, k - 1);
      if log[k - 1].SchemaEntry? {
        HistoryIsLastSince(enc, log, k - 1, log[k - 1].id);
        assert LastSince(enc, log, k - 1) - {log[k - 1].id} == LastSince(enc, log, k - 1);
      }
    }
  }

  lemma {:induction false} OffsetsSayLast(m: Schemas, ids: seq<nat>, at: nat)
    requires forall i, j :: 0 <= i < j < |ids| ==> ids[i] != ids[j]
    ensures
      var last := LastOf(MarkerOffsets(m, ids, at), at);
      && (forall id :: id in last <==> id in ids && id in m && 0 <= m[id].lastAt <= at)
      && (forall id :: id in last ==> last[id] == m[id].lastAt)
  {
    if ids != [] {
      OffsetsSayLast(m, ids[1..], at);
      var later := MarkerOffsets(m, ids[1..], at);
      if ids[0] in m && 0 <= m[ids[0]].lastAt <= at {
        assert ([(ids[0], at - m[ids[0]].lastAt)] + later)[1..] == later;
      }
    }
  }

  /** A marker in a genuine log names exactly the last data blocks that no schema block of their identifier follows. */
  lemma MarkerSaysSince(enc: Encoding, log: seq<Entry>, k: nat)
    requires k < |log| && Genuine(enc, log) && log[k].MarkerEntry?
    ensures LastOf(log[k].offsets, Position(enc, log, k)) == LastSince(enc, log, k)
  {
    assert GenuineAt(enc, log, k);
    var m, at, last := History(enc, log, k), Position(enc, log, k), LastSince(enc, log, k);
    var said := LastOf(MarkerOffsets(m, Ascending(m.Keys), at), at);
    OffsetsSayLast(m, Ascending(m.Keys), at);
    forall id ensures (id in said <==> id in last) && (id in said ==> said[id] == last[id]) {
      HistoryIsLastSince(enc, log, k, id);
    }
    SameMap(said, last);
  }

  /** In an orderly log those are the last data blocks of every identifier so far. */
  lemma MarkerSaysLast(enc: Encoding, log: seq<Entry>, k: nat)
    requires k < |log| && Orderly(enc, log) && Genuine(enc, log) && log[k].MarkerEntry?
    ensures LastOf(log[k].offsets, Position(enc, log, k)) == LastOfEach(enc, log, k)
  {
    MarkerSaysSince(enc, log, k);
    OrderlySince(enc, log, k);
  }

  lemma SameMap(a: map<nat, int>, b: map<nat, int>)
    requires forall id: nat :: (id in a <==> id in b) && (id in a ==> a[id] == b[id])
    ensures a == b
  {
    assert a.Keys == b.Keys;
  }

  // ----- payloads

  /** Every payload is stored as the codec stores it. */
  ghost predicate Readable(codec: Codec, log: seq<Entry>) {
    forall k: nat :: k < |log| ==> StoredAt(codec, log, k)
  }

  ghost predicate StoredAt(codec: Codec, log: seq<Entry>, k: nat)
    requires k < |log|
  {
    log[k].DataEntry? ==> IsStored(codec, log[k].data)
  }

  ghost predicate IsStored(codec: Codec, d: Data) {
    exists data: seq<byte> :: d.stored == Stored(codec, d.packed, data)
  }

  lemma ReadableGrows(codec: Codec, log: seq<Entry>, e: Entry)
    requires Readable(codec, log) && (e.DataEntry? ==> IsStored(codec, e.data))
    ensures Readable(codec, log + [e])
  {
    forall k: nat | k < |log + [e]| ensures StoredAt(codec, log + [e], k) {
      if k < |log| {
        assert StoredAt(codec, log, k);
      }
    }
  }

  // ----- widths

  /** What the caller hands over fits: identifiers of 64 bits, names a reader accepts, plain times. */
  ghost predicate GivenFits(e: Entry) {
    match e
    case SchemaEntry(id, name, _) => id < TWO64 && BinaryFormat.IsString(name)
    case DataEntry(d) => d.id < TWO64 && (d.time.Some? ==> IsTime(d.time.value))
    case _ => true
  }

  ghost predicate AllGivenFit(log: seq<Entry>) {
    forall k: nat :: k < |log| ==> GivenFits(log[k])
  }

  /** What the writer remembers then fits as well, in a file of less than 2^63 bytes. */
  ghost predicate Remembers(m: Schemas, at: nat) {
    forall id :: id in m ==> id < TWO64 && m[id].schemaAt < 0x8000_0000_0000_0000 && -1 <= m[id].lastAt < at
  }

  lemma {:induction false} HistoryFits(enc: Encoding, log: seq<Entry>, k: nat)
    requires k <= |log| && AllGivenFit(log) && Position(enc, log, k) < 0x8000_0000_0000_0000
    ensures Remembers(History(enc, log, k), Position(enc, log, k))
  {
    if k > 0 {
      PositionNext(enc, log, k - 1);
      HistoryFits(enc, log, k - 1);
      assert GivenFits(log[k - 1]);
    }
  }

  lemma {:induction false} OffsetsFit(m: Schemas, ids: seq<nat>, at: nat, bound: nat)
    requires Remembers(m, at) && at < bound <= TWO64
    ensures forall i :: 0 <= i < |MarkerOffsets(m, ids, at)| ==>
              MarkerOffsets(m, ids, at)[i].0 < TWO64 && MarkerOffsets(m, ids, at)[i].1 < TWO64
  {
    if ids != [] {
      OffsetsFit(m, ids[1..], at, bound);
    }
  }

  lemma {:induction false} IndexFits(m: Schemas, ids: seq<nat>, at: nat)
    requires Remembers(m, at) && at < 0x8000_0000_0000_0000
    ensures forall i :: 0 <= i < |IndexOf(m, ids)| ==> IsIndexRecord(IndexOf(m, ids)[i])
  {
    if ids != [] {
      IndexFits(m, ids[1..], at);
    }
  }

  /** Every block of a written file of less than 2^63 bytes then reads back: no field is too wide for its place. */
  lemma WrittenFits(c: Crc, enc: Encoding, log: seq<Entry>, k: nat)
    requires Encodes(c, enc) && Genuine(enc, log) && AllGivenFit(log) && k < |log|
    requires |FileBytes(enc, log)| < 0x8000_0000_0000_0000
    ensures IsEntry(c, log[k])
  {
    assert GivenFits(log[k]) && GenuineAt(enc, log, k) && EncodesEntry(c, enc, log[k]);
    EndOfLog(enc, log);
    PositionsGrow(enc, log, k, |log|);
    PositionsGrow(enc, log, k + 1, |log|);
    PositionNext(enc, log, k);
    HistoryFits(enc, log, k);
    var m, at := History(enc, log, k), Position(enc, log, k);
    match log[k]
    case MarkerEntry(time, offsets) =>
      assert GivenFits(log[k - 1]);
      OffsetsFit(m, Ascending(m.Keys), at, TWO64);
    case IndexEntry(records) => IndexFits(m, Ascending(m.Keys), at);
    case _ =>
  }
}
