/** Which items an iteration stops at: those of the records asked for by name. */
module ItemFilter {
  import opened Bytes
  import opened LogFormat
  import opened LogHistory
  import opened LogScan

  /** Nothing; or all records, or those of the identifiers found so far for the names asked for. */
  datatype Filter = Nothing | Chosen(all: bool, unknown: set<seq<byte>>, ids: set<nat>)

  const EVERYTHING := Chosen(true, {}, {})

  predicate Checks(f: Filter, id: nat) {
    f.Chosen? && (f.all || id in f.ids)
  }

  predicate Passes(f: Filter, e: Entry) {
    e.DataEntry? && Checks(f, e.data.id)
  }

  /** A schema block that is new to the reader may bear a name that was not known yet. */
  function Noticed(f: Filter, rs: seq<Record>, e: Entry): Filter {
    if f.Chosen? && e.SchemaEntry? && Find(rs, e.id) == None && e.name in f.unknown
    then Chosen(f.all, f.unknown - {e.name}, f.ids + {e.id})
    else f
  }

  function NoticedAll(f: Filter, rs: seq<Record>, log: seq<Entry>, j: nat, k: nat): Filter
    requires j <= k <= |log|
    decreases k
  {
    if j == k then f else Noticed(NoticedAll(f, rs, log, j, k - 1), LearnAll(rs, log, j, k - 1), log[k - 1])
  }

  /** The first block from `k` on at which an iteration stops. */
  function NextPassing(log: seq<Entry>, rs: seq<Record>, f: Filter, k: nat): (j: nat)
    requires k <= |log|
    ensures k <= j <= |log| && (j < |log| ==> log[j].DataEntry?)
    decreases |log| - k
  {
    if k == |log| || Passes(f, log[k]) then k else NextPassing(log, Learn(rs, log[k]), Noticed(f, rs, log[k]), k + 1)
  }

  /** One block further. */
  lemma PassingStep(log: seq<Entry>, rs: seq<Record>, f: Filter, k: nat, i: nat)
    requires k <= i < |log|
    ensures
      var rs1, f1 := LearnAll(rs, log, k, i), NoticedAll(f, rs, log, k, i);
      var rs2, f2 := LearnAll(rs, log, k, i + 1), NoticedAll(f, rs, log, k, i + 1);
      && rs2 == Learn(rs1, log[i]) && f2 == Noticed(f1, rs1, log[i])
      && NextPassing(log, rs1, f1, i) == if Passes(f1, log[i]) then i else NextPassing(log, rs2, f2, i + 1)
  {
  }

  lemma {:induction false} NothingPasses(log: seq<Entry>, rs: seq<Record>, k: nat)
    requires k <= |log|
    ensures NextPassing(log, rs, Nothing, k) == |log|
    decreases |log| - k
  {
    if k < |log| {
      NothingPasses(log, Learn(rs, log[k]), k + 1);
    }
  }

  lemma {:induction false} EverythingPasses(log: seq<Entry>, rs: seq<Record>, k: nat)
    requires k <= |log|
    ensures NextPassing(log, rs, EVERYTHING, k) == NextData(log, k)
    decreases |log| - k
  {
    if k < |log| && !log[k].DataEntry? {
      EverythingPasses(log, Learn(rs, log[k]), k + 1);
    }
  }

  lemma {:induction false} LearnAllFirst(rs: seq<Record>, log: seq<Entry>, j: nat, k: nat)
    requires j < k <= |log|
    ensures LearnAll(rs, log, j, k) == LearnAll(Learn(rs, log[j]), log, j + 1, k)
    decreases k
  {
    if j + 1 < k {
      LearnAllFirst(rs, log, j, k - 1);
    }
  }

  lemma {:induction false} NoticedAllFirst(f: Filter, rs: seq<Record>, log: seq<Entry>, j: nat, k: nat)
    requires j < k <= |log|
    ensures NoticedAll(f, rs, log, j, k) == NoticedAll(Noticed(f, rs, log[j]), Learn(rs, log[j]), log, j + 1, k)
    decreases k
  {
    if j + 1 < k {
      NoticedAllFirst(f, rs, log, j, k - 1);
      LearnAllFirst(rs, log, j, k - 1);
    }
  }

  // ----- the filter of a list of names

  /** A known record's identifier, by its name: the one learned last. */
  function Named(rs: seq<Record>, name: seq<byte>): Option<nat> {
    if rs == [] then None
    else if rs[|rs| - 1].name == name then Some(rs[|rs| - 1].id)
    else Named(rs[..|rs| - 1], name)
  }

  /** What items() sets up. */
  function FilterOf(rs: seq<Record>, names: seq<seq<byte>>): Filter {
    Chosen(names == [],
           set n | n in names && Named(rs, n) == None,
           set n | n in names && Named(rs, n).Some? :: Named(rs, n).value)
  }

  /** No two records share an identifier or a name. */
  ghost predicate Unambiguous(rs: seq<Record>) {
    forall i, j :: 0 <= i < j < |rs| ==> rs[i].id != rs[j].id && rs[i].name != rs[j].name
  }

  lemma {:induction false} NamedIs(rs: seq<Record>, name: seq<byte>)
    ensures Named(rs, name).Some? <==> exists r :: r in rs && r.name == name
    ensures Named(rs, name).Some? ==> exists r :: r in rs && r.name == name && r.id == Named(rs, name).value
  {
    if rs != [] {
      var n := |rs| - 1;
      assert rs == rs[..n] + [rs[n]];
      if rs[n].name == name {
        assert rs[n] in rs;
      } else {
        NamedIs(rs[..n], name);
      }
    }
  }

  /** In unambiguous records, the identifiers of a filter are those of the records with the names asked for. */
  lemma FilterIds(rs: seq<Record>, names: seq<seq<byte>>, id: nat)
    requires Unambiguous(rs)
    ensures id in FilterOf(rs, names).ids <==> exists r :: r in rs && r.id == id && r.name in names
  {
    if r :| r in rs && r.id == id && r.name in names {
      NamedIs(rs, r.name);
      var q :| q in rs && q.name == r.name && q.id == Named(rs, r.name).value;
      var i, j :| 0 <= i < |rs| && 0 <= j < |rs| && rs[i] == r && rs[j] == q;
      assert r.name in names && Named(rs, r.name).Some? && Named(rs, r.name).value == id;
    }
    if id in FilterOf(rs, names).ids {
      var n :| n in names && Named(rs, n).Some? && Named(rs, n).value == id;
      NamedIs(rs, n);
    }
  }

  /** Noticing a new record keeps the filter that of the records known. */
  lemma NoticedIsFilterOf(rs: seq<Record>, names: seq<seq<byte>>, e: Entry)
    requires Unambiguous(Learn(rs, e))
    ensures Noticed(FilterOf(rs, names), rs, e) == FilterOf(Learn(rs, e), names)
  {
    if e.SchemaEntry? && Find(rs, e.id) == None {
      var r, f, g := Record(e.id, e.name, e.schema), FilterOf(rs, names), FilterOf(rs + [Record(e.id, e.name, e.schema)], names);
      var all := rs + [r];
      assert all[..|all| - 1] == rs && all[|rs|] == r;
      assert forall n :: Named(all, n) == if n == e.name then Some(e.id) else Named(rs, n);
      NamedIs(rs, e.name);
      assert forall i :: 0 <= i < |rs| ==> all[i] == rs[i];
      assert Named(rs, e.name) == None;
      if e.name in names {
        assert g.unknown == f.unknown - {e.name};
        forall id ensures id in g.ids <==> id in f.ids + {e.id} {
          if id in f.ids {
            var n :| n in names && Named(rs, n).Some? && Named(rs, n).value == id;
            assert Named(all, n) == Some(id);
          }
          if id == e.id {
            assert Named(all, e.name) == Some(id);
          }
        }
        assert g.ids == f.ids + {e.id};
      } else {
        assert g.unknown == f.unknown;
        forall id ensures id in g.ids <==> id in f.ids {
          if id in f.ids {
            var n :| n in names && Named(rs, n).Some? && Named(rs, n).value == id;
            assert Named(all, n) == Some(id);
          }
        }
        assert g.ids == f.ids;
      }
    }
  }

  // ----- what such an iteration visits

  /** Data of a record with one of the names; of any record when no names are given. */
  ghost predicate Selects(names: seq<seq<byte>>, rs: seq<Record>, e: Entry) {
    e.DataEntry? && (names == [] || exists r :: r in rs && r.id == e.data.id && r.name in names)
  }

  /** Where such data starts, from block `k` on. */
  ghost function SelectedFrom(enc: Encoding, log: seq<Entry>, names: seq<seq<byte>>, rs: seq<Record>, k: nat): seq<nat>
    requires k <= |log|
    decreases |log| - k
  {
    if k == |log| then []
    else if Selects(names, rs, log[k]) then [Position(enc, log, k)] + SelectedFrom(enc, log, names, rs, k + 1)
    else SelectedFrom(enc, log, names, rs, k + 1)
  }

  /** All identifiers met before block `k` are known. */
  ghost predicate CaughtUp(enc: Encoding, log: seq<Entry>, rs: seq<Record>, k: nat)
    requires k <= |log|
  {
    forall id :: id in History(enc, log, k) ==> Find(rs, id).Some?
  }

  lemma CaughtUpStep(enc: Encoding, log: seq<Entry>, rs: seq<Record>, k: nat)
    requires k < |log| && Orderly(enc, log) && CaughtUp(enc, log, rs, k)
    ensures CaughtUp(enc, log, Learn(rs, log[k]), k + 1)
  {
    assert OrderlyAt(enc, log, k);
    forall id | id in History(enc, log, k + 1) ensures Find(Learn(rs, log[k]), id).Some? {
      if log[k].SchemaEntry? {
        FindAppended(rs, Record(log[k].id, log[k].name, log[k].schema), id);
      }
    }
  }

  lemma {:induction false} LearnAllExtends(rs: seq<Record>, log: seq<Entry>, j: nat, k: nat)
    requires j <= k <= |log|
    ensures rs <= LearnAll(rs, log, j, k)
    decreases k
  {
    if j < k {
      LearnAllExtends(rs, log, j, k - 1);
    }
  }

  lemma PrefixUnambiguous(rs: seq<Record>, all: seq<Record>)
    requires rs <= all && Unambiguous(all)
    ensures Unambiguous(rs)
  {
    assert forall i :: 0 <= i < |rs| ==> rs[i] == all[i];
  }

  lemma {:induction false} FoundIsThere(rs: seq<Record>, id: nat)
    requires Find(rs, id).Some?
    ensures exists i :: 0 <= i < |rs| && rs[i].id == id
  {
    if rs[0].id != id {
      FoundIsThere(rs[1..], id);
      var i :| 0 <= i < |rs[1..]| && rs[1..][i].id == id;
      assert rs[i + 1].id == id;
    }
  }

  /** Reading on keeps a reader caught up. */
  lemma {:induction false} StaysCaughtUp(enc: Encoding, log: seq<Entry>, rs: seq<Record>, k: nat, i: nat)
    requires k <= i <= |log| && Orderly(enc, log) && CaughtUp(enc, log, rs, k)
    ensures CaughtUp(enc, log, LearnAll(rs, log, k, i), i)
    decreases i
  {
    if k < i {
      StaysCaughtUp(enc, log, rs, k, i - 1);
      CaughtUpStep(enc, log, LearnAll(rs, log, k, i - 1), i - 1);
    }
  }

  // ----- a filter set up when less was known

  /** What a filter set up at `rs0` goes by, the reader having known `rs` when the iteration began and `now` by now. */
  function Kept(rs0: seq<Record>, rs: seq<Record>, now: seq<Record>): seq<Record>
    requires |rs| <= |now|
  {
    rs0 + now[|rs|..]
  }

  /** Learned after the filter was set up and before the iteration began. */
  ghost predicate Late(rs0: seq<Record>, rs: seq<Record>, id: nat) {
    exists i :: |rs0| <= i < |rs| && rs[i].id == id
  }

  lemma KeptAt(rs0: seq<Record>, rs: seq<Record>, now: seq<Record>)
    requires rs0 <= rs <= now && Unambiguous(now)
    ensures Unambiguous(Kept(rs0, rs, now))
    ensures forall r :: r in Kept(rs0, rs, now) <==> r in now && !Late(rs0, rs, r.id)
  {
    var kept := Kept(rs0, rs, now);
    forall i | 0 <= i < |kept| ensures kept[i] == now[if i < |rs0| then i else i - |rs0| + |rs|] {
      if i < |rs0| {
        assert kept[i] == rs0[i] == rs[i] == now[i];
      }
    }
    assert forall i :: 0 <= i < |rs| ==> rs[i] == now[i];
    forall r | r in now && !Late(rs0, rs, r.id) ensures r in kept {
      var i :| 0 <= i < |now| && now[i] == r;
      if i < |rs0| {
        assert kept[i] == r;
      } else if |rs| <= i {
        assert kept[i - |rs| + |rs0|] == r;
      }
    }
    forall r | r in kept ensures r in now && !Late(rs0, rs, r.id) {
      var i :| 0 <= i < |kept| && kept[i] == r;
    }
  }

  /** One block: the filter stays the one of the records it goes by, and lets through what is selected and not late. */
  lemma StaleStep(rs0: seq<Record>, rs: seq<Record>, now: seq<Record>, all: seq<Record>, names: seq<seq<byte>>,
                  e: Entry)
    requires rs0 <= rs <= now <= all && Learn(now, e) <= all && Unambiguous(all)
    requires e.DataEntry? ==> Find(now, e.data.id).Some?
    ensures rs <= Learn(now, e)
    ensures Noticed(FilterOf(Kept(rs0, rs, now), names), now, e) == FilterOf(Kept(rs0, rs, Learn(now, e)), names)
    ensures Passes(FilterOf(Kept(rs0, rs, now), names), e)
       <==> Selects(names, all, e) && (names == [] || !Late(rs0, rs, e.data.id))
  {
    var kept := Kept(rs0, rs, now);
    PrefixUnambiguous(now, all);
    PrefixUnambiguous(Learn(now, e), all);
    KeptAt(rs0, rs, now);
    if e.SchemaEntry? && Find(now, e.id) == None {
      var r := Record(e.id, e.name, e.schema);
      assert Kept(rs0, rs, now + [r]) == kept + [r];
      KeptAt(rs0, rs, now + [r]);
      NotFoundInPart(now, kept, e.id);
      NoticedIsFilterOf(kept, names, e);
    }
    if e.DataEntry? && names != [] {
      FilterIds(kept, names, e.data.id);
      SelectedIsKnown(now, all, names, e);
    }
  }

  lemma NotFoundInPart(now: seq<Record>, kept: seq<Record>, id: nat)
    requires Find(now, id) == None && forall r :: r in kept ==> r in now
    ensures Find(kept, id) == None
  {
    FindIsIn(now, id);
    FindIsIn(kept, id);
  }

  /** A block's identifier being known, the record that selects it is. */
  lemma SelectedIsKnown(now: seq<Record>, all: seq<Record>, names: seq<seq<byte>>, e: Entry)
    requires now <= all && Unambiguous(all) && e.DataEntry? && Find(now, e.data.id).Some? && names != []
    ensures Selects(names, all, e) <==> exists r :: r in now && r.id == e.data.id && r.name in names
  {
    assert forall i :: 0 <= i < |now| ==> now[i] == all[i];
    FoundIsThere(now, e.data.id);
    var i :| 0 <= i < |now| && now[i].id == e.data.id;
    if r :| r in all && r.id == e.data.id && r.name in names {
      var j :| 0 <= j < |all| && all[j] == r;
      assert i == j;
    }
  }

  /** Where an iteration stops, from block `k` on. */
  function VisitedFrom(enc: Encoding, log: seq<Entry>, rs: seq<Record>, f: Filter, k: nat): seq<nat>
    requires k <= |log|
    decreases |log| - k
  {
    if k == |log| then []
    else if Passes(f, log[k]) then [Position(enc, log, k)] + VisitedFrom(enc, log, rs, f, k + 1)
    else VisitedFrom(enc, log, Learn(rs, log[k]), Noticed(f, rs, log[k]), k + 1)
  }

  /** The next place is where it stops next. */
  lemma {:induction false} VisitedOnward(enc: Encoding, log: seq<Entry>, rs: seq<Record>, f: Filter, k: nat)
    requires k <= |log|
    ensures
      var j := NextPassing(log, rs, f, k);
      && VisitedFrom(enc, log, rs, f, k) == VisitedFrom(enc, log, LearnAll(rs, log, k, j), NoticedAll(f, rs, log, k, j), j)
      && (j < |log| ==> Passes(NoticedAll(f, rs, log, k, j), log[j]))
    decreases |log| - k
  {
    if k < |log| && !Passes(f, log[k]) {
      VisitedOnward(enc, log, Learn(rs, log[k]), Noticed(f, rs, log[k]), k + 1);
      var j := NextPassing(log, rs, f, k);
      LearnAllFirst(rs, log, k, j);
      NoticedAllFirst(f, rs, log, k, j);
    }
  }

  /** All that was selected is visited. */
  ghost predicate NoneLate(rs0: seq<Record>, rs: seq<Record>, log: seq<Entry>, names: seq<seq<byte>>,
                           all: seq<Record>, k: nat)
    requires k <= |log|
  {
    names == [] || forall j :: k <= j < |log| && Selects(names, all, log[j]) ==> !Late(rs0, rs, log[j].data.id)
  }

  lemma {:induction false} StaleVisits(enc: Encoding, log: seq<Entry>, rs0: seq<Record>, rs: seq<Record>,
                                       now: seq<Record>,
                                       names: seq<seq<byte>>, all: seq<Record>, k: nat)
    requires k <= |log| && Orderly(enc, log) && CaughtUp(enc, log, now, k)
    requires rs0 <= rs <= now && all == LearnAll(now, log, k, |log|) && Unambiguous(all)
    ensures
      var visited := VisitedFrom(enc, log, now, FilterOf(Kept(rs0, rs, now), names), k);
      var selected := SelectedFrom(enc, log, names, all, k);
      |visited| <= |selected| && (visited == selected <==> NoneLate(rs0, rs, log, names, all, k))
    decreases |log| - k
  {
    if k < |log| {
      var f, e, next := FilterOf(Kept(rs0, rs, now), names), log[k], Learn(now, log[k]);
      StepIsFit(enc, log, now, k, all);
      StaleStep(rs0, rs, now, all, names, e);
      StaleVisits(enc, log, rs0, rs, next, names, all, k + 1);
      if Passes(f, e) {
        var p := [Position(enc, log, k)];
        var v, s := VisitedFrom(enc, log, next, f, k + 1), SelectedFrom(enc, log, names, all, k + 1);
        assert (p + v)[1..] == v && (p + s)[1..] == s;
      }
      LateStep(rs0, rs, log, names, all, k);
    }
  }

  lemma StepIsFit(enc: Encoding, log: seq<Entry>, now: seq<Record>, k: nat, all: seq<Record>)
    requires k < |log| && Orderly(enc, log) && CaughtUp(enc, log, now, k) && all == LearnAll(now, log, k, |log|)
    ensures now <= all && Learn(now, log[k]) <= all && all == LearnAll(Learn(now, log[k]), log, k + 1, |log|)
    ensures CaughtUp(enc, log, Learn(now, log[k]), k + 1)
    ensures log[k].DataEntry? ==> Find(now, log[k].data.id).Some?
  {
    LearnAllExtends(now, log, k, |log|);
    assert OrderlyAt(enc, log, k);
    LearnAllFirst(now, log, k, |log|);
    CaughtUpStep(enc, log, now, k);
    LearnAllExtends(Learn(now, log[k]), log, k + 1, |log|);
  }

  lemma LateStep(rs0: seq<Record>, rs: seq<Record>, log: seq<Entry>, names: seq<seq<byte>>, all: seq<Record>, k: nat)
    requires k < |log|
    ensures NoneLate(rs0, rs, log, names, all, k)
       <==> NoneLate(rs0, rs, log, names, all, k + 1)
            && (names != [] && Selects(names, all, log[k]) ==> !Late(rs0, rs, log[k].data.id))
  {
  }

  /** A record with a name asked for was learned in between, and has data still to come. */
  ghost predicate LateData(rs0: seq<Record>, rs: seq<Record>, log: seq<Entry>, names: seq<seq<byte>>, k: nat) {
    exists i, j :: |rs0| <= i < |rs| && rs[i].name in names && k <= j < |log| && IsDataOf(log[j], rs[i].id)
  }

  lemma LateDataIsMissed(rs0: seq<Record>, rs: seq<Record>, log: seq<Entry>, names: seq<seq<byte>>, all: seq<Record>,
                         k: nat)
    requires rs0 <= rs <= all && Unambiguous(all) && k <= |log|
    ensures NoneLate(rs0, rs, log, names, all, k) <==> !LateData(rs0, rs, log, names, k)
  {
    assert forall i :: 0 <= i < |rs| ==> rs[i] == all[i];
    if names != [] && !NoneLate(rs0, rs, log, names, all, k) {
      var j :| k <= j < |log| && Selects(names, all, log[j]) && Late(rs0, rs, log[j].data.id);
      var r :| r in all && r.id == log[j].data.id && r.name in names;
      var i :| |rs0| <= i < |rs| && rs[i].id == log[j].data.id;
      var n :| 0 <= n < |all| && all[n] == r;
      assert n == i;
      assert IsDataOf(log[j], rs[i].id);
    }
    if LateData(rs0, rs, log, names, k) {
      var i, j :| |rs0| <= i < |rs| && rs[i].name in names && k <= j < |log| && IsDataOf(log[j], rs[i].id);
      assert all[i] in all && Selects(names, all, log[j]);
    }
  }

  /** A filter made when `rs0` was known, used for an iteration from block `k` on that begins when the reader knows
      `rs`, visits exactly the items of the records with the names asked for if and only if no record with such a name
      was learned in between and has data still to come. */
  lemma VisitsSelectedIff(enc: Encoding, log: seq<Entry>, rs0: seq<Record>, rs: seq<Record>, names: seq<seq<byte>>,
                          all: seq<Record>, k: nat)
    requires k <= |log| && Orderly(enc, log) && CaughtUp(enc, log, rs, k)
    requires rs0 <= rs && all == LearnAll(rs, log, k, |log|) && Unambiguous(all)
    ensures VisitedFrom(enc, log, rs, FilterOf(rs0, names), k) == SelectedFrom(enc, log, names, all, k)
       <==> !LateData(rs0, rs, log, names, k)
  {
    assert Kept(rs0, rs, rs) == rs0;
    LearnAllExtends(rs, log, k, |log|);
    StaleVisits(enc, log, rs0, rs, rs, names, all, k);
    LateDataIsMissed(rs0, rs, log, names, all, k);
  }

  /** Block by block: what passes is what is selected, late records apart. */
  lemma {:induction false} PassesIffNotLate(enc: Encoding, log: seq<Entry>, rs0: seq<Record>, rs: seq<Record>,
                                            names: seq<seq<byte>>, all: seq<Record>, k: nat, j: nat)
    requires k <= j <= |log| && Orderly(enc, log) && CaughtUp(enc, log, rs, k)
    requires rs0 <= rs && all == LearnAll(rs, log, k, |log|) && Unambiguous(all)
    ensures
      var now, f := LearnAll(rs, log, k, j), NoticedAll(FilterOf(rs0, names), rs, log, k, j);
      && rs <= now && f == FilterOf(Kept(rs0, rs, now), names)
      && (j < |log| ==> (Passes(f, log[j]) <==> Selects(names, all, log[j]) && (names == [] || !Late(rs0, rs, log[j].data.id))))
    decreases j
  {
    var now := LearnAll(rs, log, k, j);
    LearnAllSplit(rs, log, k, j, |log|);
    StaysCaughtUp(enc, log, rs, k, j);
    LearnAllExtends(rs, log, k, j);
    if j == k {
      assert Kept(rs0, rs, rs) == rs0;
    } else {
      PassesIffNotLate(enc, log, rs0, rs, names, all, k, j - 1);
      var before := LearnAll(rs, log, k, j - 1);
      LearnAllSplit(rs, log, k, j - 1, |log|);
      StaysCaughtUp(enc, log, rs, k, j - 1);
      StepIsFit(enc, log, before, j - 1, all);
      StaleStep(rs0, rs, before, all, names, log[j - 1]);
    }
    if j < |log| {
      StepIsFit(enc, log, now, j, all);
      StaleStep(rs0, rs, now, all, names, log[j]);
    }
  }

  /** One record with one item: asked for by name before it was known, learned by a scan, and then missed. */
  lemma LearnedInBetweenIsMissed(enc: Encoding, name: seq<byte>, schema: seq<byte>, d: Data)
    requires d.id == 1
    ensures
      var log, rs, names := [SchemaEntry(1, name, schema), DataEntry(d)], [Record(1, name, schema)], [name];
      && LearnAll([], log, 0, |log|) == rs
      && VisitedFrom(enc, log, rs, FilterOf([], names), 0) == []
      && SelectedFrom(enc, log, names, rs, 0) == [Position(enc, log, 1)]
  {
    var log, rs, names := [SchemaEntry(1, name, schema), DataEntry(d)], [Record(1, name, schema)], [name];
    assert LearnAll([], log, 0, 0) == [] && LearnAll([], log, 0, 1) == rs;
    var f := FilterOf([], names);
    assert f.ids == {};
    assert Noticed(f, rs, log[0]) == f && Learn(rs, log[0]) == rs;
    assert VisitedFrom(enc, log, rs, f, 1) == VisitedFrom(enc, log, rs, f, 2) == [];
    assert rs[0] in rs && name in names;
    assert SelectedFrom(enc, log, names, rs, 1) == [Position(enc, log, 1)] + SelectedFrom(enc, log, names, rs, 2);
    assert [Position(enc, log, 1)] + [] == [Position(enc, log, 1)];
  }
}
