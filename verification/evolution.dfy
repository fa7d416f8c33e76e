/** Schema evolution: data written under one schema read, by field name, into an object of another. */
module Evolution {
  import opened Bytes
  import opened Streams
  import opened Varuint
  import opened BinaryFormat
  import opened SchemaParser
  import opened SchemaReader
  import opened Archive

  // ----- equal schema bytes mean equal schemas

  lemma LEInjective(n: nat, m: nat, k: nat, p: seq<byte>, q: seq<byte>)
    requires n < Pow256(k) && m < Pow256(k) && LE(n, k) + p == LE(m, k) + q
    ensures n == m && p == q
  {
    ReadLEAfterLE(n, k, p);
    ReadLEAfterLE(m, k, q);
  }

  lemma StrInjective(a: seq<byte>, b: seq<byte>, p: seq<byte>, q: seq<byte>)
    requires Str(a) + p == Str(b) + q
    ensures a == b && p == q
  {
    Regroup(Encode(|a|), a, p);
    Regroup(Encode(|b|), b, q);
    EncodeInjective(|a|, |b|, a + p, b + q);
    assert a == (a + p)[..|a|] && b == (b + q)[..|b|];
    assert p == (a + p)[|a|..] && q == (b + q)[|b|..];
  }

  lemma PrimDataInjective(p: Prim, v: Value, w: Value, a: seq<byte>, b: seq<byte>)
    requires Visited(Prim(p)) && PrimHas(p, v) && PrimHas(p, w) && PrimData(p, v) + a == PrimData(p, w) + b
    ensures v == w && a == b
  {
    if p == Bytes || p == String {
      StrInjective(v.text, w.text, a, b);
    } else {
      assert Pow256(1) == 256;
      LEInjective(v.n, w.n, PrimSize(p), a, b);
    }
  }

  /** No two values share their bytes, and none is a prefix of another. */
  lemma {:induction false} DataInjective(s: Schema, v: Value, w: Value, p: seq<byte>, q: seq<byte>)
    requires Visited(s) && Has(s, v) && Has(s, w) && Data(s, v) + p == Data(s, w) + q
    ensures v == w && p == q
    decreases s, 0
  {
    match s {
      case Prim(pr) => PrimDataInjective(pr, v, w, p, q);
      case Enum(_, _) => EncodeInjective(v.n, w.n, p, q);
      case Object(_, fields) => FieldsDataInjective(fields, v.parts, w.parts, p, q);
      case Array(item) =>
        Regroup(Encode(|v.parts|), ItemsData(item, v.parts), p);
        Regroup(Encode(|w.parts|), ItemsData(item, w.parts), q);
        EncodeInjective(|v.parts|, |w.parts|, ItemsData(item, v.parts) + p, ItemsData(item, w.parts) + q);
        ItemsDataInjective(item, v.parts, w.parts, p, q);
      case FixedArray(_, item) => ItemsDataInjective(item, v.parts, w.parts, p, q);
      case Union(alts) =>
        Regroup(Encode(v.index), Data(alts[v.index], v.chosen), p);
        Regroup(Encode(w.index), Data(alts[w.index], w.chosen), q);
        EncodeInjective(v.index, w.index, Data(alts[v.index], v.chosen) + p, Data(alts[w.index], w.chosen) + q);
        if v.index == 0 {
          assert [] + p == p && [] + q == q;
        } else {
          DataInjective(alts[1], v.chosen, w.chosen, p, q);
        }
    }
  }

  lemma {:induction false} FieldsDataInjective(fields: seq<Field>, vs: seq<Value>, ws: seq<Value>, p: seq<byte>,
                                               q: seq<byte>)
    requires FieldsVisited(fields) && FieldsHave(fields, vs) && FieldsHave(fields, ws)
    requires FieldsData(fields, vs) + p == FieldsData(fields, ws) + q
    ensures vs == ws && p == q
    decreases fields, 0
  {
    if fields == [] {
      assert [] + p == p && [] + q == q;
    } else {
      var ds, es := FieldsData(fields[1..], vs[1..]), FieldsData(fields[1..], ws[1..]);
      Regroup(Data(fields[0].schema, vs[0]), ds, p);
      Regroup(Data(fields[0].schema, ws[0]), es, q);
      DataInjective(fields[0].schema, vs[0], ws[0], ds + p, es + q);
      FieldsDataInjective(fields[1..], vs[1..], ws[1..], p, q);
      assert vs == [vs[0]] + vs[1..] && ws == [ws[0]] + ws[1..];
    }
  }

  lemma {:induction false} ItemsDataInjective(item: Schema, vs: seq<Value>, ws: seq<Value>, p: seq<byte>, q: seq<byte>)
    requires Visited(item) && ItemsHave(item, vs) && ItemsHave(item, ws) && |vs| == |ws|
    requires ItemsData(item, vs) + p == ItemsData(item, ws) + q
    ensures vs == ws && p == q
    decreases item, |vs| + 1
  {
    if vs == [] {
      assert [] + p == p && [] + q == q;
    } else {
      var ds, es := ItemsData(item, vs[1..]), ItemsData(item, ws[1..]);
      Regroup(Data(item, vs[0]), ds, p);
      Regroup(Data(item, ws[0]), es, q);
      DataInjective(item, vs[0], ws[0], ds + p, es + q);
      ItemsDataInjective(item, vs[1..], ws[1..], p, q);
      assert vs == [vs[0]] + vs[1..] && ws == [ws[0]] + ws[1..];
    }
  }

  lemma {:induction false} EnumItemsInjective(items: seq<(nat, seq<byte>)>, others: seq<(nat, seq<byte>)>)
    requires |items| == |others| && EmitItems(Varuint, items) == EmitItems(Varuint, others)
    ensures items == others
  {
    if items != [] {
      var k, n, l, m := items[0].0, items[0].1, others[0].0, others[0].1;
      var r, r' := EmitItems(Varuint, items[1..]), EmitItems(Varuint, others[1..]);
      Regroup(Encode(k), Str(n), r);
      Regroup(Encode(l), Str(m), r');
      EncodeInjective(k, l, Str(n) + r, Str(m) + r');
      StrInjective(n, m, r, r');
      EnumItemsInjective(items[1..], others[1..]);
      assert items == [items[0]] + items[1..] && others == [others[0]] + others[1..];
    }
  }

  lemma CancelPrefix(h: seq<byte>, x: seq<byte>, y: seq<byte>)
    requires h + x == h + y
    ensures x == y
  {
    assert x == (h + x)[|h|..] && y == (h + y)[|h|..];
  }

  lemma EnumInjective(items: seq<(nat, seq<byte>)>, others: seq<(nat, seq<byte>)>)
    requires Emit(Enum(Varuint, items)) == Emit(Enum(Varuint, others))
    ensures items == others
  {
    var head := Encode(17) + EmitPrim(Varuint);
    var x, y := EmitItems(Varuint, items), EmitItems(Varuint, others);
    Regroup(head, Encode(|items|), x);
    Regroup(head, Encode(|others|), y);
    CancelPrefix(head, Encode(|items|) + x, Encode(|others|) + y);
    EncodeInjective(|items|, |others|, x, y);
    EnumItemsInjective(items, others);
  }

  /** The rebuilt element determines the schema, defaults included. */
  lemma {:induction false} ElementInjective(s: Schema, t: Schema, name: seq<byte>)
    requires (Visited(s) || s == Prim(Null)) && (Visited(t) || t == Prim(Null))
    requires ElementOf(s, name) == ElementOf(t, name)
    ensures s == t
    decreases s, 0
  {
    assert Code(s) == Code(t) && Emit(s) == Emit(t);
    match s {
      case Prim(_) =>
      case Enum(_, items) => EnumInjective(items, t.items);
      case Object(_, fields) => FieldsInjective(fields, t.fields);
      case Array(item) => ElementInjective(item, t.item, name);
      case FixedArray(_, item) => ElementInjective(item, t.item, name);
      case Union(alts) => OptionalInjective(alts, t.alts, name);
    }
  }

  lemma {:induction false} OptionalInjective(alts: seq<Schema>, others: seq<Schema>, name: seq<byte>)
    requires Visited(Union(alts)) && Visited(Union(others))
    requires ElementOf(Union(alts), name) == ElementOf(Union(others), name)
    ensures alts == others
    decreases alts, 0
  {
    ElementsOfAt(alts, name, 1);
    ElementsOfAt(others, name, 1);
    ElementInjective(alts[1], others[1], name);
    assert alts == [alts[0], alts[1]] && others == [others[0], others[1]];
  }

  lemma {:induction false} FieldsInjective(fields: seq<Field>, others: seq<Field>)
    requires FieldsVisited(fields) && FieldsVisited(others) && ElementFieldsOf(fields) == ElementFieldsOf(others)
    ensures fields == others
    decreases fields, 0
  {
    assert |fields| == |ElementFieldsOf(fields)| == |others|;
    if fields != [] {
      var f, g := fields[0], others[0];
      assert ElementFieldsOf(fields)[0] == ElementFieldsOf(others)[0];
      assert ElementFieldsOf(fields)[1..] == ElementFieldsOf(fields[1..]);
      assert ElementFieldsOf(others)[1..] == ElementFieldsOf(others[1..]);
      ElementInjective(f.schema, g.schema, f.name);
      DataInjective(f.schema, f.default.value, g.default.value, [], []);
      FieldsInjective(fields[1..], others[1..]);
      assert fields == [f] + fields[1..] && others == [g] + others[1..];
    }
  }

  /** The byte comparison the mapped reader starts with decides equality of schemas. */
  lemma SameBytesSameSchema(s: Schema, t: Schema)
    requires Visited(s) && Visited(t) && WellFormed(s) && WellFormed(t)
    ensures Emit(s) == Emit(t) <==> s == t
  {
    if Emit(s) == Emit(t) {
      ParseAfterEmit(s, [], []);
      ParseAfterEmit(t, [], []);
      ElementInjective(s, t, []);
    }
  }

  // ----- reading by name

  /** std::map::find over the element's fields, which were inserted in order: the first of a name stays. */
  function FindField(fields: seq<ElementField>, name: seq<byte>): (r: Option<nat>)
    ensures r.Some? ==> r.value < |fields| && fields[r.value].name == name
    ensures r == None <==> forall k :: 0 <= k < |fields| ==> fields[k].name != name
  {
    if fields == [] then None
    else if fields[0].name == name then Some(0)
    else
      var r := FindField(fields[1..], name);
      assert forall k :: 1 <= k < |fields| ==> fields[k] == fields[1..][k - 1];
      if r == None then None else Some(r.value + 1)
  }

  /** The case split of the constructor: it succeeds for the type `t` against element `e`, and for every reader it then
      builds for a part. */
  predicate Buildable(t: Schema, e: Element)
    requires Visited(t)
    decreases t, 0
  {
    || e.binarySchema == Emit(t)
    || (t.Object? && e.kind == 16 && FieldsBuildable(t.fields, e.fields))
    || (t.Array? && e.kind == 18 && e.children != [] && Buildable(t.item, e.children[0]))
    || (t.FixedArray? && e.kind == 19 && e.arraySize == t.size && e.children != [] && Buildable(t.item, e.children[0]))
    || (t.Union? && e.kind == 21 && |e.children| >= 2 && (|e.children| == 2 || e.children[0].kind == 1)
        && Buildable(t.alts[1], e.children[1]))
    || (t.Enum? && e.kind == 17)
  }

  predicate FieldsBuildable(fields: seq<Field>, efields: seq<ElementField>)
    requires FieldsVisited(fields)
    decreases fields, 0
  {
    fields != [] ==>
      var at := FindField(efields, fields[0].name);
      (at.Some? ==> Buildable(fields[0].schema, efields[at.value].element)) && FieldsBuildable(fields[1..], efields)
  }

  /** One pass over the record: each field's bytes, skipped over and kept by name. */
  function Collect(fields: seq<ElementField>, b: seq<byte>, sofar: map<seq<byte>, seq<byte>>)
    : (r: Read<map<seq<byte>, seq<byte>>>)
  {
    if fields == [] then Got(sofar, b)
    else
      var (_, r1) :- Skip(fields[0].element, b);
      Collect(fields[1..], r1, Insert(sofar, fields[0].name, Recorded(b, r1)))
  }

  /** MappedBinaryReader::Read. */
  function MappedRead(t: Schema, e: Element, b: seq<byte>, target: Value): Read<Value>
    requires Visited(t) && Has(t, target) && Buildable(t, e)
    decreases t, 0
  {
    if e.binarySchema == Emit(t) then ReadInto(t, b, target)
    else
      match t
      case Object(_, fields) =>
        var (data, r1) :- Collect(e.fields, b, map[]);
        var (vs, _) :- MappedFields(fields, e.fields, data, target.parts);
        Got(Parts(vs), r1)
      case Array(item) =>
        var (n, r1) :- Decode(b);
        ResizedHave(item, target.parts, n);
        var (vs, r2) :- MappedItems(item, e.children[0], r1, Resized(item, target.parts, n));
        Got(Parts(vs), r2)
      case FixedArray(_, item) =>
        var (vs, r1) :- MappedItems(item, e.children[0], b, target.parts);
        Got(Parts(vs), r1)
      case Union(alts) =>
        var (i, r1) :- Decode(b);
        if i == 0 then Got(Choice(0, Nothing), r1)
        else
          InitialHas(alts[1]);
          var (v, r2) :- MappedRead(alts[1], e.children[1], r1, Initial(alts[1]));
          Got(Choice(1, v), r2)
      case Enum(_, _) =>
        var (n, r1) :- Decode(b);
        Got(Number(n), r1)
  }

  /** The visit of the C++ fields: one with no reader or no data is left alone. */
  function MappedFields(fields: seq<Field>, efields: seq<ElementField>, data: map<seq<byte>, seq<byte>>, ts: seq<Value>)
    : Read<seq<Value>>
    requires FieldsVisited(fields) && FieldsHave(fields, ts) && FieldsBuildable(fields, efields)
    ensures var r := MappedFields(fields, efields, data, ts); r.Got? ==> r.rest == []
    decreases fields, 0
  {
    if fields == [] then Got([], [])
    else
      var (v, _) :- MappedField(fields[0], efields, data, ts[0]);
      var (vs, _) :- MappedFields(fields[1..], efields, data, ts[1..]);
      Got([v] + vs, [])
  }

  function MappedField(f: Field, efields: seq<ElementField>, data: map<seq<byte>, seq<byte>>,
                       target: Value): Read<Value>
    requires Visited(f.schema) && Has(f.schema, target)
    requires var at := FindField(efields, f.name); at.Some? ==> Buildable(f.schema, efields[at.value].element)
    decreases f, 0
  {
    var at := FindField(efields, f.name);
    if at == None || f.name !in data then Got(target, [])
    else MappedRead(f.schema, efields[at.value].element, data[f.name], target)
  }

  function MappedItems(item: Schema, e: Element, b: seq<byte>, ts: seq<Value>): Read<seq<Value>>
    requires Visited(item) && ItemsHave(item, ts) && Buildable(item, e)
    decreases item, |ts|
  {
    if ts == [] then Got([], b)
    else
      var (v, r1) :- MappedRead(item, e, b, ts[0]);
      var (vs, r2) :- MappedItems(item, e, r1, ts[1..]);
      Got([v] + vs, r2)
  }

  // ----- what evolution means

  function FindName(fields: seq<Field>, name: seq<byte>): (r: Option<nat>)
    ensures r.Some? ==> r.value < |fields| && fields[r.value].name == name
  {
    if fields == [] then None
    else if fields[0].name == name then Some(0)
    else
      var r := FindName(fields[1..], name);
      if r == None then None else Some(r.value + 1)
  }

  /** Data of schema `s` can be read into type `t`. */
  predicate Compatible(s: Schema, t: Schema)
    requires Visited(s) && Visited(t)
    decreases t, 0
  {
    || s == t
    || (s.Object? && t.Object? && FieldsCompatible(s.fields, t.fields))
    || (s.Array? && t.Array? && Compatible(s.item, t.item))
    || (s.FixedArray? && t.FixedArray? && s.size == t.size && Compatible(s.item, t.item))
    || (s.Union? && t.Union? && Compatible(s.alts[1], t.alts[1]))
    || (s.Enum? && t.Enum?)
  }

  predicate FieldsCompatible(sfields: seq<Field>, tfields: seq<Field>)
    requires FieldsVisited(sfields) && FieldsVisited(tfields)
    decreases tfields, 0
  {
    tfields != [] ==>
      var at := FindName(sfields, tfields[0].name);
      (at.Some? ==> FieldVisited(sfields, at.value) && Compatible(sfields[at.value].schema, tfields[0].schema))
      && FieldsCompatible(sfields, tfields[1..])
  }

  /** Always so; it hands the verifier the fact about one field. */
  predicate FieldVisited(fields: seq<Field>, i: nat)
    requires FieldsVisited(fields) && i < |fields|
    ensures FieldVisited(fields, i) && Visited(fields[i].schema)
    decreases i
  {
    i == 0 || FieldVisited(fields[1..], i - 1)
  }

  predicate FieldHas(fields: seq<Field>, vs: seq<Value>, i: nat)
    requires FieldsHave(fields, vs) && i < |fields|
    ensures FieldHas(fields, vs, i) && i < |vs| == |fields| && Has(fields[i].schema, vs[i])
    decreases i
  {
    i == 0 || FieldHas(fields[1..], vs[1..], i - 1)
  }

  /** Value `v` of schema `s` carried over an object of type `t`: a field takes the value written under its name, or
      keeps what it had. */
  function Evolve(s: Schema, t: Schema, v: Value, target: Value): Value
    requires Visited(s) && Visited(t) && Has(s, v) && Has(t, target) && Compatible(s, t)
    decreases t, 0
  {
    if s == t then Merge(t, v, target)
    else
      match t
      case Object(_, tfields) => Parts(EvolveFields(s.fields, tfields, v.parts, target.parts))
      case Array(item) =>
        ResizedHave(item, target.parts, |v.parts|);
        Parts(EvolveItems(s.item, item, v.parts, Resized(item, target.parts, |v.parts|)))
      case FixedArray(_, item) => Parts(EvolveItems(s.item, item, v.parts, target.parts))
      case Union(alts) =>
        if v.index == 0 then Choice(0, Nothing)
        else
          InitialHas(alts[1]);
          Choice(1, Evolve(s.alts[1], alts[1], v.chosen, Initial(alts[1])))
      case Enum(_, _) => v
  }

  function EvolveFields(sfields: seq<Field>, tfields: seq<Field>, vs: seq<Value>, ts: seq<Value>): (r: seq<Value>)
    requires FieldsVisited(sfields) && FieldsVisited(tfields) && FieldsHave(sfields, vs) && FieldsHave(tfields, ts)
    requires FieldsCompatible(sfields, tfields)
    ensures |r| == |tfields|
    decreases tfields, 0
  {
    if tfields == [] then []
    else [EvolveField(sfields, tfields[0], vs, ts[0])] + EvolveFields(sfields, tfields[1..], vs, ts[1..])
  }

  function EvolveField(sfields: seq<Field>, f: Field, vs: seq<Value>, target: Value): Value
    requires FieldsVisited(sfields) && FieldsHave(sfields, vs) && Visited(f.schema) && Has(f.schema, target)
    requires var at := FindName(sfields, f.name);
             at.Some? ==> FieldVisited(sfields, at.value) && Compatible(sfields[at.value].schema, f.schema)
    decreases f, 0
  {
    var at := FindName(sfields, f.name);
    if at == None then target
    else
      assert FieldHas(sfields, vs, at.value);
      Evolve(sfields[at.value].schema, f.schema, vs[at.value], target)
  }

  function EvolveItems(s: Schema, t: Schema, vs: seq<Value>, ts: seq<Value>): (r: seq<Value>)
    requires Visited(s) && Visited(t) && ItemsHave(s, vs) && ItemsHave(t, ts) && |vs| == |ts| && Compatible(s, t)
    ensures |r| == |vs|
    decreases t, |vs|
  {
    if vs == [] then [] else [Evolve(s, t, vs[0], ts[0])] + EvolveItems(s, t, vs[1..], ts[1..])
  }

  // ----- the mapped reader does exactly that

  lemma {:induction false} ElementFieldsOfAt(fields: seq<Field>, i: nat)
    requires i < |fields|
    ensures ElementFieldsOf(fields)[i].element == ElementOf(fields[i].schema, fields[i].name)
    ensures ElementFieldsOf(fields)[i].name == fields[i].name
    decreases i
  {
    if i > 0 {
      ElementFieldsOfAt(fields[1..], i - 1);
      assert ElementFieldsOf(fields)[i] == ElementFieldsOf(fields[1..])[i - 1];
    }
  }

  lemma {:induction false} FindAgrees(fields: seq<Field>, name: seq<byte>)
    ensures FindField(ElementFieldsOf(fields), name) == FindName(fields, name)
    decreases |fields|
  {
    if fields != [] {
      FindAgrees(fields[1..], name);
      assert ElementFieldsOf(fields)[1..] == ElementFieldsOf(fields[1..]);
    }
  }

  /** A reader can be built for exactly the pairs of schemas that match by name and shape. */
  lemma {:induction false} BuildableIffCompatible(s: Schema, t: Schema, name: seq<byte>)
    requires Visited(s) && WellFormed(s) && Visited(t) && WellFormed(t)
    ensures Buildable(t, ElementOf(s, name)) <==> Compatible(s, t)
    decreases t, 0
  {
    SameBytesSameSchema(s, t);
    if s.Object? && t.Object? {
      FieldsBuildableIffCompatible(s.fields, t.fields);
    } else if (s.Array? && t.Array?) || (s.FixedArray? && t.FixedArray?) {
      BuildableIffCompatible(s.item, t.item, name);
    } else if s.Union? && t.Union? {
      UnionBuildable(s.alts, t.alts, name);
    }
  }

  lemma {:induction false} UnionBuildable(salts: seq<Schema>, alts: seq<Schema>, name: seq<byte>)
    requires Visited(Union(salts)) && WellFormed(Union(salts)) && Visited(Union(alts)) && WellFormed(Union(alts))
    ensures ElementsOf(salts, name)[1] == ElementOf(salts[1], name)
    ensures Buildable(alts[1], ElementsOf(salts, name)[1]) <==> Compatible(salts[1], alts[1])
    decreases alts, 0
  {
    ElementsOfAt(salts, name, 1);
    SecondWellFormed(salts);
    SecondWellFormed(alts);
    BuildableIffCompatible(salts[1], alts[1], name);
  }

  lemma {:induction false} FieldsBuildableIffCompatible(sfields: seq<Field>, tfields: seq<Field>)
    requires FieldsVisited(sfields) && FieldsWellFormed(sfields) && FieldsVisited(tfields) && FieldsWellFormed(tfields)
    ensures FieldsBuildable(tfields, ElementFieldsOf(sfields)) <==> FieldsCompatible(sfields, tfields)
    decreases tfields, 0
  {
    if tfields != [] {
      var name := tfields[0].name;
      var at := FindName(sfields, name);
      FindAgrees(sfields, name);
      if at.Some? {
        assert FieldVisited(sfields, at.value);
        FieldWellFormed(sfields, at.value);
        ElementFieldsOfAt(sfields, at.value);
        BuildableIffCompatible(sfields[at.value].schema, tfields[0].schema, name);
      }
      FieldsBuildableIffCompatible(sfields, tfields[1..]);
    }
  }

  lemma {:induction false} FieldWellFormed(fields: seq<Field>, i: nat)
    requires FieldsWellFormed(fields) && i < |fields|
    ensures WellFormed(fields[i].schema)
    decreases i
  {
    if i > 0 {
      FieldWellFormed(fields[1..], i - 1);
    }
  }

  /** Every name the record has is kept with the bytes of its first field, unless it was already there. */
  ghost predicate Collected(fields: seq<Field>, vs: seq<Value>, sofar: map<seq<byte>, seq<byte>>,
                            m: map<seq<byte>, seq<byte>>)
    requires FieldsHave(fields, vs)
  {
    forall name ::
      if name in sofar then name in m && m[name] == sofar[name]
      else match FindName(fields, name)
           case None => name !in m
           case Some(i) => name in m && m[name] == Data(fields[i].schema, vs[i])
  }

  lemma {:induction false} CollectAfterData(fields: seq<Field>, vs: seq<Value>, rest: seq<byte>,
                                            sofar: map<seq<byte>, seq<byte>>)
    requires FieldsHave(fields, vs)
    ensures
      var r := Collect(ElementFieldsOf(fields), FieldsData(fields, vs) + rest, sofar);
      r.Got? && r.rest == rest && Collected(fields, vs, sofar, r.value)
    decreases |fields|
  {
    if fields == [] {
      assert [] + rest == rest;
    } else {
      var f := fields[0];
      var d, ds := Data(f.schema, vs[0]), FieldsData(fields[1..], vs[1..]);
      Regroup(d, ds, rest);
      SkipAfterData(f.schema, f.name, vs[0], ds + rest);
      RecordedPrefix(d, ds + rest);
      assert ElementFieldsOf(fields)[1..] == ElementFieldsOf(fields[1..]);
      CollectAfterData(fields[1..], vs[1..], rest, Insert(sofar, f.name, d));
    }
  }

  /** Reading a record of `s` into an object of type `t` consumes exactly the record and leaves the evolved object. */
  lemma {:induction false} MappedReadAfterData(s: Schema, t: Schema, name: seq<byte>, v: Value, target: Value,
                                               rest: seq<byte>)
    requires Visited(s) && WellFormed(s) && Visited(t) && WellFormed(t) && Has(s, v) && Has(t, target) && Compatible(s, t)
    ensures Buildable(t, ElementOf(s, name))
    ensures MappedRead(t, ElementOf(s, name), Data(s, v) + rest, target) == Got(Evolve(s, t, v, target), rest)
    decreases t, 0
  {
    BuildableIffCompatible(s, t, name);
    SameBytesSameSchema(s, t);
    if s == t {
      ReadIntoAfterData(s, v, target, rest);
    } else {
      match t {
        case Object(_, tfields) =>
          FieldsBuildableIffCompatible(s.fields, tfields);
          CollectAfterData(s.fields, v.parts, rest, map[]);
          var data := Collect(ElementFieldsOf(s.fields), Data(s, v) + rest, map[]).value;
          MappedFieldsAfterData(s.fields, tfields, data, v.parts, target.parts);
        case Array(item) =>
          var n := |v.parts|;
          CountThen(n, ItemsData(s.item, v.parts), rest);
          ResizedHave(item, target.parts, n);
          MappedItemsAfterData(s.item, item, name, v.parts, Resized(item, target.parts, n), rest);
        case FixedArray(_, item) => MappedItemsAfterData(s.item, item, name, v.parts, target.parts, rest);
        case Union(alts) => MappedUnionAfterData(s.alts, alts, name, v, target, rest);
        case Enum(_, _) => DecodeAfterEncode(v.n, rest);
      }
    }
  }

  lemma {:induction false} MappedUnionAfterData(salts: seq<Schema>, alts: seq<Schema>, name: seq<byte>, v: Value,
                                                target: Value, rest: seq<byte>)
    requires var s, t := Union(salts), Union(alts);
             Visited(s) && WellFormed(s) && Visited(t) && WellFormed(t) && Has(s, v) && Has(t, target) && Compatible(s, t)
    requires salts != alts && Buildable(Union(alts), ElementOf(Union(salts), name))
    ensures MappedRead(Union(alts), ElementOf(Union(salts), name), Data(Union(salts), v) + rest, target) ==
            Got(Evolve(Union(salts), Union(alts), v, target), rest)
    decreases alts, 1
  {
    SameBytesSameSchema(Union(salts), Union(alts));
    CountThen(v.index, Data(salts[v.index], v.chosen), rest);
    if v.index == 0 {
      assert Data(salts[0], v.chosen) + rest == rest;
    } else {
      ElementsOfAt(salts, name, 1);
      InitialHas(alts[1]);
      SecondWellFormed(salts);
      SecondWellFormed(alts);
      MappedReadAfterData(salts[1], alts[1], name, v.chosen, Initial(alts[1]), rest);
    }
  }

  lemma SecondWellFormed(alts: seq<Schema>)
    requires AltsWellFormed(alts) && |alts| >= 2
    ensures WellFormed(alts[1])
  {
    assert AltsWellFormed(alts[1..]);
  }

  lemma {:induction false} MappedFieldsAfterData(sfields: seq<Field>, tfields: seq<Field>,
                                                 data: map<seq<byte>, seq<byte>>, vs: seq<Value>, ts: seq<Value>)
    requires FieldsVisited(sfields) && FieldsWellFormed(sfields) && FieldsVisited(tfields) && FieldsWellFormed(tfields)
    requires FieldsHave(sfields, vs) && FieldsHave(tfields, ts) && FieldsCompatible(sfields, tfields)
    requires FieldsBuildable(tfields, ElementFieldsOf(sfields)) && Collected(sfields, vs, map[], data)
    ensures MappedFields(tfields, ElementFieldsOf(sfields), data, ts) == Got(EvolveFields(sfields, tfields, vs, ts), [])
    decreases tfields, 0
  {
    if tfields != [] {
      MappedFieldAfterData(sfields, tfields[0], data, vs, ts[0]);
      MappedFieldsAfterData(sfields, tfields[1..], data, vs, ts[1..]);
    }
  }

  lemma {:induction false} MappedFieldAfterData(sfields: seq<Field>, f: Field, data: map<seq<byte>, seq<byte>>,
                                                vs: seq<Value>, target: Value)
    requires FieldsVisited(sfields) && FieldsWellFormed(sfields) && FieldsHave(sfields, vs)
    requires Visited(f.schema) && WellFormed(f.schema) && Has(f.schema, target) && Collected(sfields, vs, map[], data)
    requires FieldsVisited([f]) && FieldsCompatible(sfields, [f]) && FieldsBuildable([f], ElementFieldsOf(sfields))
    ensures
      var r := MappedField(f, ElementFieldsOf(sfields), data, target);
      r.Got? && r.value == EvolveField(sfields, f, vs, target)
    decreases f, 0
  {
    var at := FindName(sfields, f.name);
    FindAgrees(sfields, f.name);
    if at.Some? {
      var sf := sfields[at.value];
      assert FieldVisited(sfields, at.value) && FieldHas(sfields, vs, at.value);
      FieldWellFormed(sfields, at.value);
      ElementFieldsOfAt(sfields, at.value);
      MappedReadAfterData(sf.schema, f.schema, sf.name, vs[at.value], target, []);
      assert Data(sf.schema, vs[at.value]) + [] == data[f.name];
    }
  }

  lemma {:induction false} MappedItemsAfterData(s: Schema, t: Schema, name: seq<byte>, vs: seq<Value>, ts: seq<Value>,
                                                rest: seq<byte>)
    requires Visited(s) && WellFormed(s) && Visited(t) && WellFormed(t) && Compatible(s, t)
    requires ItemsHave(s, vs) && ItemsHave(t, ts) && |vs| == |ts|
    ensures Buildable(t, ElementOf(s, name))
    ensures MappedItems(t, ElementOf(s, name), ItemsData(s, vs) + rest, ts) == Got(EvolveItems(s, t, vs, ts), rest)
    decreases t, |vs| + 1
  {
    BuildableIffCompatible(s, t, name);
    if vs == [] {
      assert [] + rest == rest;
    } else {
      var d, ds := Data(s, vs[0]), ItemsData(s, vs[1..]);
      Regroup(d, ds, rest);
      MappedReadAfterData(s, t, name, vs[0], ts[0], ds + rest);
      MappedItemsAfterData(s, t, name, vs[1..], ts[1..], rest);
    }
  }

  lemma {:induction false} EvolveFieldsAt(sfields: seq<Field>, tfields: seq<Field>, vs: seq<Value>, ts: seq<Value>,
                                          i: nat)
    requires FieldsVisited(sfields) && FieldsVisited(tfields) && FieldsHave(sfields, vs) && FieldsHave(tfields, ts)
    requires FieldsCompatible(sfields, tfields) && i < |tfields|
    ensures FieldVisited(tfields, i) && FieldHas(tfields, ts, i)
    ensures match FindName(sfields, tfields[i].name)
            case None => EvolveFields(sfields, tfields, vs, ts)[i] == ts[i]
            case Some(j) =>
              && FieldVisited(sfields, j) && FieldHas(sfields, vs, j)
              && Compatible(sfields[j].schema, tfields[i].schema)
              && EvolveFields(sfields, tfields, vs, ts)[i] == Evolve(sfields[j].schema, tfields[i].schema, vs[j], ts[i])
    decreases i
  {
    if i > 0 {
      EvolveFieldsAt(sfields, tfields[1..], vs, ts[1..], i - 1);
    } else if FindName(sfields, tfields[0].name).Some? {
      assert FieldHas(sfields, vs, FindName(sfields, tfields[0].name).value);
    }
  }

  /** Field by field: one the record does not name is left as it was; any other takes what was written under its name,
      evolved in turn, which is the value itself when the types are the same and what the field held was clean; and the
      stream moves by exactly one record. */
  lemma FieldsByName(s: Schema, t: Schema, name: seq<byte>, v: Value, target: Value, rest: seq<byte>, i: nat)
    requires Visited(s) && WellFormed(s) && Visited(t) && WellFormed(t) && Has(s, v) && Has(t, target)
    requires Compatible(s, t) && s.Object? && t.Object? && s != t && i < |t.fields|
    ensures Buildable(t, ElementOf(s, name)) && FieldVisited(t.fields, i) && FieldHas(t.fields, target.parts, i)
    ensures
      var f := t.fields[i];
      var r := MappedRead(t, ElementOf(s, name), Data(s, v) + rest, target);
      && r.Got? && r.rest == rest && r.value.Parts? && |r.value.parts| == |t.fields|
      && match FindName(s.fields, f.name)
         case None => r.value.parts[i] == target.parts[i]
         case Some(j) =>
           && FieldVisited(s.fields, j) && FieldHas(s.fields, v.parts, j) && Compatible(s.fields[j].schema, f.schema)
           && r.value.parts[i] == Evolve(s.fields[j].schema, f.schema, v.parts[j], target.parts[i])
           && (s.fields[j].schema == f.schema && Clean(f.schema, target.parts[i]) ==> r.value.parts[i] == v.parts[j])
  {
    MappedReadAfterData(s, t, name, v, target, rest);
    EvolveFieldsAt(s.fields, t.fields, v.parts, target.parts, i);
    var at := FindName(s.fields, t.fields[i].name);
    if at.Some? && s.fields[at.value].schema == t.fields[i].schema && Clean(t.fields[i].schema, target.parts[i]) {
      CleanMergesToValue(t.fields[i].schema, v.parts[at.value], target.parts[i]);
    }
  }

  // ----- the fast path for equal schemas

  predicate DistinctNames(fields: seq<Field>) {
    forall i, j :: 0 <= i < j < |fields| ==> fields[i].name != fields[j].name
  }

  lemma {:induction false} FindsItself(fields: seq<Field>, i: nat)
    requires DistinctNames(fields) && i < |fields|
    ensures FindName(fields, fields[i].name) == Some(i)
    decreases i
  {
    if i > 0 {
      assert DistinctNames(fields[1..]);
      FindsItself(fields[1..], i - 1);
    }
  }

  /** No object anywhere in the schema has two fields of a name. */
  predicate AllDistinct(s: Schema)
    decreases s, 0
  {
    match s
    case Object(_, fields) => DistinctNames(fields) && FieldsDistinct(fields)
    case Array(item) => AllDistinct(item)
    case FixedArray(_, item) => AllDistinct(item)
    case Union(alts) => |alts| == 2 ==> AllDistinct(alts[1])
    case _ => true
  }

  predicate FieldsDistinct(fields: seq<Field>)
    decreases fields, 0
  {
    fields != [] ==> AllDistinct(fields[0].schema) && FieldsDistinct(fields[1..])
  }

  /** MappedBinaryReader::Read without its shortcut: however alike the schemas are, objects are read field by field
      through their names and containers item by item. */
  function SlowRead(t: Schema, e: Element, b: seq<byte>, target: Value): Read<Value>
    requires Visited(t) && Has(t, target)
    decreases t, 0
  {
    match t
    case Prim(p) => ReadPrim(p, b)
    case Object(_, fields) =>
      var (data, r1) :- Collect(e.fields, b, map[]);
      var (vs, _) :- SlowFields(fields, e.fields, data, target.parts);
      Got(Parts(vs), r1)
    case Array(item) =>
      if e.children == [] then Abort
      else
        var (n, r1) :- Decode(b);
        ResizedHave(item, target.parts, n);
        var (vs, r2) :- SlowItems(item, e.children[0], r1, Resized(item, target.parts, n));
        Got(Parts(vs), r2)
    case FixedArray(_, item) =>
      if e.children == [] then Abort
      else
        var (vs, r1) :- SlowItems(item, e.children[0], b, target.parts);
        Got(Parts(vs), r1)
    case Union(alts) =>
      if |e.children| < 2 then Abort
      else
        var (i, r1) :- Decode(b);
        if i == 0 then Got(Choice(0, Nothing), r1)
        else
          InitialHas(alts[1]);
          var (v, r2) :- SlowRead(alts[1], e.children[1], r1, Initial(alts[1]));
          Got(Choice(1, v), r2)
    case Enum(_, _) =>
      var (n, r1) :- Decode(b);
      Got(Number(n), r1)
  }

  function SlowFields(fields: seq<Field>, efields: seq<ElementField>, data: map<seq<byte>, seq<byte>>, ts: seq<Value>)
    : Read<seq<Value>>
    requires FieldsVisited(fields) && FieldsHave(fields, ts)
    decreases fields, 0
  {
    if fields == [] then Got([], [])
    else
      var (v, _) :- SlowField(fields[0], efields, data, ts[0]);
      var (vs, _) :- SlowFields(fields[1..], efields, data, ts[1..]);
      Got([v] + vs, [])
  }

  function SlowField(f: Field, efields: seq<ElementField>, data: map<seq<byte>, seq<byte>>, target: Value): Read<Value>
    requires Visited(f.schema) && Has(f.schema, target)
    decreases f, 0
  {
    var at := FindField(efields, f.name);
    if at == None || f.name !in data then Got(target, [])
    else SlowRead(f.schema, efields[at.value].element, data[f.name], target)
  }

  function SlowItems(item: Schema, e: Element, b: seq<byte>, ts: seq<Value>): Read<seq<Value>>
    requires Visited(item) && ItemsHave(item, ts)
    decreases item, |ts|
  {
    if ts == [] then Got([], b)
    else
      var (v, r1) :- SlowRead(item, e, b, ts[0]);
      var (vs, r2) :- SlowItems(item, e, r1, ts[1..]);
      Got([v] + vs, r2)
  }

  /** On its own schema the slow path reads back what was written, whatever the object held. */
  lemma {:induction false} SlowReadAfterData(s: Schema, name: seq<byte>, v: Value, target: Value, rest: seq<byte>)
    requires Visited(s) && AllDistinct(s) && Has(s, v) && Has(s, target)
    ensures SlowRead(s, ElementOf(s, name), Data(s, v) + rest, target) == Got(v, rest)
    decreases s, 0
  {
    match s {
      case Prim(p) => ReadPrimAfterData(p, v, rest);
      case Object(_, fields) => SlowObjectAfterData(fields, name, v, target, rest);
      case Array(item) =>
        var n := |v.parts|;
        CountThen(n, ItemsData(item, v.parts), rest);
        ResizedHave(item, target.parts, n);
        SlowItemsAfterData(item, name, v.parts, Resized(item, target.parts, n), rest);
      case FixedArray(_, item) => SlowItemsAfterData(item, name, v.parts, target.parts, rest);
      case Union(alts) => SlowUnionAfterData(alts, name, v, target, rest);
      case Enum(_, _) => DecodeAfterEncode(v.n, rest);
    }
  }

  lemma {:induction false} SlowUnionAfterData(alts: seq<Schema>, name: seq<byte>, v: Value, target: Value,
                                              rest: seq<byte>)
    requires var s := Union(alts); Visited(s) && AllDistinct(s) && Has(s, v) && Has(s, target)
    ensures SlowRead(Union(alts), ElementOf(Union(alts), name), Data(Union(alts), v) + rest, target) == Got(v, rest)
    decreases alts, 0
  {
    CountThen(v.index, Data(alts[v.index], v.chosen), rest);
    if v.index == 0 {
      assert Data(alts[0], v.chosen) + rest == rest;
    } else {
      ElementsOfAt(alts, name, 1);
      InitialHas(alts[1]);
      SlowReadAfterData(alts[1], name, v.chosen, Initial(alts[1]), rest);
    }
  }

  lemma {:induction false} SlowItemsAfterData(item: Schema, name: seq<byte>, vs: seq<Value>, ts: seq<Value>,
                                              rest: seq<byte>)
    requires Visited(item) && AllDistinct(item) && ItemsHave(item, vs) && ItemsHave(item, ts) && |vs| == |ts|
    ensures SlowItems(item, ElementOf(item, name), ItemsData(item, vs) + rest, ts) == Got(vs, rest)
    decreases item, |vs| + 1
  {
    if vs == [] {
      assert [] + rest == rest;
    } else {
      var d, ds := Data(item, vs[0]), ItemsData(item, vs[1..]);
      Regroup(d, ds, rest);
      SlowReadAfterData(item, name, vs[0], ts[0], ds + rest);
      SlowItemsAfterData(item, name, vs[1..], ts[1..], rest);
      assert [vs[0]] + vs[1..] == vs;
    }
  }

  lemma {:induction false} SlowObjectAfterData(fields: seq<Field>, name: seq<byte>, v: Value, target: Value,
                                               rest: seq<byte>)
    requires var s := Object(0, fields); Visited(s) && AllDistinct(s) && Has(s, v) && Has(s, target)
    ensures SlowRead(Object(0, fields), ElementOf(Object(0, fields), name), FieldsData(fields, v.parts) + rest, target) == Got(v, rest)
    decreases fields, 1
  {
    CollectAfterData(fields, v.parts, rest, map[]);
    var data := Collect(ElementFieldsOf(fields), FieldsData(fields, v.parts) + rest, map[]).value;
    SuppliesAll(fields, data, v.parts, 0);
    assert fields[0..] == fields && v.parts[0..] == v.parts;
    SlowFieldsAfterData(fields, fields, data, v.parts, target.parts);
  }

  /** Under its name, `f` finds itself among the fields and its value among the data. */
  ghost predicate Supplied(all: seq<Field>, f: Field, data: map<seq<byte>, seq<byte>>, v: Value) {
    var at := FindName(all, f.name);
    at.Some? && all[at.value] == f && f.name in data && data[f.name] == Data(f.schema, v)
  }

  ghost predicate Supplies(all: seq<Field>, fields: seq<Field>, data: map<seq<byte>, seq<byte>>, vs: seq<Value>)
    requires FieldsHave(fields, vs)
  {
    fields != [] ==> Supplied(all, fields[0], data, vs[0]) && Supplies(all, fields[1..], data, vs[1..])
  }

  lemma {:induction false} SuppliesAll(fields: seq<Field>, data: map<seq<byte>, seq<byte>>, vs: seq<Value>, k: nat)
    requires FieldsHave(fields, vs) && DistinctNames(fields) && Collected(fields, vs, map[], data) && k <= |fields|
    ensures FieldsHave(fields[k..], vs[k..]) && Supplies(fields, fields[k..], data, vs[k..])
    decreases |fields| - k
  {
    FieldsHaveFrom(fields, vs, k);
    if k < |fields| {
      SuppliesAll(fields, data, vs, k + 1);
      FindsItself(fields, k);
      assert fields[k..][0] == fields[k] && fields[k..][1..] == fields[k + 1..];
      assert vs[k..][0] == vs[k] && vs[k..][1..] == vs[k + 1..];
    }
  }

  lemma {:induction false} FieldsHaveFrom(fields: seq<Field>, vs: seq<Value>, k: nat)
    requires FieldsHave(fields, vs) && k <= |fields|
    ensures FieldsHave(fields[k..], vs[k..])
    decreases k
  {
    if k > 0 {
      FieldsHaveFrom(fields[1..], vs[1..], k - 1);
      assert fields[1..][k - 1..] == fields[k..] && vs[1..][k - 1..] == vs[k..];
    }
  }

  lemma {:induction false} SlowFieldsAfterData(all: seq<Field>, fields: seq<Field>, data: map<seq<byte>, seq<byte>>,
                                               vs: seq<Value>, ts: seq<Value>)
    requires FieldsVisited(fields) && FieldsDistinct(fields) && FieldsHave(fields, vs) && FieldsHave(fields, ts)
    requires Supplies(all, fields, data, vs)
    ensures SlowFields(fields, ElementFieldsOf(all), data, ts) == Got(vs, [])
    decreases fields, 0
  {
    if fields != [] {
      SlowFieldAfterData(all, fields[0], data, vs[0], ts[0]);
      SlowFieldsAfterData(all, fields[1..], data, vs[1..], ts[1..]);
      assert [vs[0]] + vs[1..] == vs;
    }
  }

  lemma {:induction false} SlowFieldAfterData(all: seq<Field>, f: Field, data: map<seq<byte>, seq<byte>>, v: Value,
                                              target: Value)
    requires Visited(f.schema) && AllDistinct(f.schema) && Has(f.schema, v) && Has(f.schema, target)
    requires Supplied(all, f, data, v)
    ensures SlowField(f, ElementFieldsOf(all), data, target) == Got(v, [])
    decreases f, 0
  {
    FindAgrees(all, f.name);
    ElementFieldsOfAt(all, FindName(all, f.name).value);
    SlowReadAfterData(f.schema, f.name, v, target, []);
    assert Data(f.schema, v) + [] == data[f.name];
  }

  /** The shortcut for equal schemas gives what reading by name gives, for all data, if and only if the object read into
      was clean: only there do reading "absent" over an optional and resetting it come to the same. */
  lemma FastPathAgreesIff(s: Schema, name: seq<byte>, target: Value)
    requires Visited(s) && AllDistinct(s) && Has(s, target)
    ensures Buildable(s, ElementOf(s, name))
    ensures Clean(s, target) <==>
            forall v, rest :: Has(s, v) ==>
              SlowRead(s, ElementOf(s, name), Data(s, v) + rest, target)
              == MappedRead(s, ElementOf(s, name), Data(s, v) + rest, target)
  {
    if Clean(s, target) {
      forall v, rest | Has(s, v)
        ensures SlowRead(s, ElementOf(s, name), Data(s, v) + rest, target)
             == MappedRead(s, ElementOf(s, name), Data(s, v) + rest, target)
      {
        SlowReadAfterData(s, name, v, target, rest);
        ReadIntoAfterData(s, v, target, rest);
        CleanMergesToValue(s, v, target);
      }
    } else {
      var v := UncleanMisreads(s, target);
      SlowReadAfterData(s, name, v, target, []);
      ReadIntoAfterData(s, v, target, []);
    }
  }

  // ----- the mapped reader as it runs

  method CollectFrom(fields: seq<ElementField>, st: BufferReadStream) returns (o: Outcome<map<seq<byte>, seq<byte>>>)
    requires st.Valid()
    modifies st
    ensures st.Valid() && Agrees(o, Collect(fields, old(st.Rest()), map[]), st.Rest())
  {
    var data: map<seq<byte>, seq<byte>> := map[];
    for i := 0 to |fields|
      invariant st.Valid() && Collect(fields, old(st.Rest()), map[]) == Collect(fields[i..], st.Rest(), data)
    {
      assert fields[i..][0] == fields[i] && fields[i..][1..] == fields[i + 1..];
      var raw := ReadRaw(fields[i].element, st);
      if raw.Threw? { return Threw; }
      if raw.Aborted? { return Aborted; }
      data := Insert(data, fields[i].name, raw.value);
    }
    o := Fine(data);
  }

  method ReadMapped(t: Schema, e: Element, st: BufferReadStream, target: Value) returns (o: Outcome<Value>)
    requires Visited(t) && Has(t, target) && Buildable(t, e) && st.Valid()
    modifies st
    ensures st.Valid() && Agrees(o, MappedRead(t, e, old(st.Rest()), target), st.Rest())
    decreases t, 0
  {
    if e.binarySchema == Emit(t) {
      o := Archive.Read(t, st, target);
      return;
    }
    match t {
      case Object(_, fields) =>
        var data := CollectFrom(e.fields, st);
        if data.Threw? { return Threw; }
        if data.Aborted? { return Aborted; }
        var vs := VisitFields(fields, e.fields, data.value, target.parts);
        o := match vs case Fine(parts) => Fine(Parts(parts)) case Threw => Threw case Aborted => Aborted;
      case Array(item) =>
        var n := Count(st);
        if !n.Fine? { return Threw; }
        ResizedHave(item, target.parts, n.value);
        var vs := ReadMappedItems(item, e.children[0], st, Resized(item, target.parts, n.value));
        o := match vs case Fine(parts) => Fine(Parts(parts)) case Threw => Threw case Aborted => Aborted;
      case FixedArray(_, item) =>
        var vs := ReadMappedItems(item, e.children[0], st, target.parts);
        o := match vs case Fine(parts) => Fine(Parts(parts)) case Threw => Threw case Aborted => Aborted;
      case Union(alts) =>
        var i := Count(st);
        if !i.Fine? { return Threw; }
        if i.value == 0 { return Fine(Choice(0, Nothing)); }
        InitialHas(alts[1]);
        var v := ReadMapped(alts[1], e.children[1], st, Initial(alts[1]));
        o := match v case Fine(x) => Fine(Choice(1, x)) case Threw => Threw case Aborted => Aborted;
      case Enum(_, _) =>
        var n := Count(st);
        o := if n.Fine? then Fine(Number(n.value)) else Threw;
    }
  }

  /** DataArchive::Visit: the field is read from a stream over its own bytes, or left alone. */
  method VisitField(f: Field, efields: seq<ElementField>, data: map<seq<byte>, seq<byte>>, target: Value)
    returns (o: Outcome<Value>)
    requires Visited(f.schema) && Has(f.schema, target)
    requires var at := FindField(efields, f.name); at.Some? ==> Buildable(f.schema, efields[at.value].element)
    ensures var r := MappedField(f, efields, data, target); Agrees(o, r, if r.Got? then r.rest else [])
    decreases f, 0
  {
    var at := FindField(efields, f.name);
    if at == None || f.name !in data { return Fine(target); }
    var st := new BufferReadStream(data[f.name]);
    o := ReadMapped(f.schema, efields[at.value].element, st, target);
  }

  method VisitFields(fields: seq<Field>, efields: seq<ElementField>, data: map<seq<byte>, seq<byte>>, ts: seq<Value>)
    returns (o: Outcome<seq<Value>>)
    requires FieldsVisited(fields) && FieldsHave(fields, ts) && FieldsBuildable(fields, efields)
    ensures Agrees(o, MappedFields(fields, efields, data, ts), [])
    decreases fields, 0
  {
    if fields == [] { return Fine([]); }
    var v := VisitField(fields[0], efields, data, ts[0]);
    if v.Threw? { return Threw; }
    if v.Aborted? { return Aborted; }
    var vs := VisitFields(fields[1..], efields, data, ts[1..]);
    o := match vs case Fine(others) => Fine([v.value] + others) case Threw => Threw case Aborted => Aborted;
  }

  lemma MappedStep(item: Schema, e: Element, b: seq<byte>, todo: seq<Value>, done: seq<Value>)
    requires Visited(item) && ItemsHave(item, todo) && Buildable(item, e) && todo != []
    ensures
      var r := MappedRead(item, e, b, todo[0]);
      Prepend(done, MappedItems(item, e, b, todo)) ==
        if r.Got? then Prepend(done + [r.value], MappedItems(item, e, r.rest, todo[1..])) else r.PropagateFailure()
  {
    var r := MappedRead(item, e, b, todo[0]);
    if r.Got? {
      PrependOne(done, r.value, MappedItems(item, e, r.rest, todo[1..]));
    }
  }

  method ReadMappedItems(item: Schema, e: Element, st: BufferReadStream, ts: seq<Value>)
    returns (o: Outcome<seq<Value>>)
    requires Visited(item) && ItemsHave(item, ts) && Buildable(item, e) && st.Valid()
    modifies st
    ensures st.Valid() && Agrees(o, MappedItems(item, e, old(st.Rest()), ts), st.Rest())
    decreases item, 1
  {
    var value: seq<Value> := ts;
    ghost var whole := MappedItems(item, e, st.Rest(), ts);
    PrependNone(whole);
    ghost var done: seq<Value>, todo := [], ts;
    for i := 0 to |ts|
      invariant st.Valid() && |done| == i && |done| + |todo| == |ts| && value == done + todo && ItemsHave(item, todo)
      invariant whole == Prepend(done, MappedItems(item, e, st.Rest(), todo))
    {
      assert value[i] == todo[0];
      MappedStep(item, e, st.Rest(), todo, done);
      var v := ReadMapped(item, e, st, value[i]);
      if !v.Fine? { return if v.Threw? then Threw else Aborted; }
      Replaced(done, todo, v.value);
      value := value[i := v.value];
      done, todo := done + [v.value], todo[1..];
    }
    assert todo == [] && done + [] == done;
    o := Fine(value);
  }
}
