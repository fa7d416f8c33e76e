/** Writing a C++ object's data and reading it back into an existing object. */
module Archive {
  import opened Bytes
  import opened Streams
  import opened Varuint
  import opened BinaryFormat
  import opened SchemaParser
  import opened SchemaReader

  /** The schemas the C++ visitors produce: no flags, no aliases, enumerations over varuint, and the one union an
      optional becomes.  A field's default is its value in a default-constructed object. */
  predicate Visited(s: Schema)
    decreases s, 0
  {
    match s
    case Prim(p) =>
      p != Null && p != Varint && p != Varuint && (p.FixedInt? || p.FixedUInt? ==> p.size in {1, 2, 4, 8})
    case Object(flags, fields) => flags == 0 && FieldsVisited(fields)
    case Enum(base, _) => base == Varuint
    case Array(item) => Visited(item)
    case FixedArray(_, item) => Visited(item)
    case Map(_) => false
    case Union(alts) => |alts| == 2 && alts[0] == Prim(Null) && Visited(alts[1])
  }

  predicate FieldsVisited(fields: seq<Field>)
    decreases fields, 0
  {
    fields != [] ==>
      && fields[0].flags == 0 && fields[0].aliases == [] && Visited(fields[0].schema)
      && fields[0].default.Some? && Has(fields[0].schema, fields[0].default.value)
      && FieldsVisited(fields[1..])
  }

  /** A default-constructed object. */
  function Initial(s: Schema): Value
    decreases s, 0
  {
    match s
    case Prim(p) => if p == Bytes || p == String then Text([]) else Number(0)
    case Object(_, fields) => Parts(Defaults(fields))
    case Enum(_, _) => Number(0)
    case Array(_) => Parts([])
    case FixedArray(size, item) => Parts(Copies(Initial(item), size))
    case Map(_) => Pairs([])
    case Union(_) => Choice(0, Nothing)
  }

  function Defaults(fields: seq<Field>): (vs: seq<Value>)
    ensures |vs| == |fields|
  {
    if fields == [] then []
    else [if fields[0].default.Some? then fields[0].default.value else Nothing] + Defaults(fields[1..])
  }

  function Copies(v: Value, n: nat): (vs: seq<Value>)
    ensures |vs| == n
  {
    if n == 0 then [] else [v] + Copies(v, n - 1)
  }

  lemma {:induction false} InitialHas(s: Schema)
    requires Visited(s)
    ensures Has(s, Initial(s))
    decreases s, 0
  {
    match s {
      case Object(_, fields) => DefaultsHave(fields);
      case FixedArray(size, item) =>
        InitialHas(item);
        CopiesHave(item, Initial(item), size);
      case _ =>
    }
  }

  lemma {:induction false} DefaultsHave(fields: seq<Field>)
    requires FieldsVisited(fields)
    ensures FieldsHave(fields, Defaults(fields))
    decreases fields
  {
    if fields != [] {
      DefaultsHave(fields[1..]);
    }
  }

  lemma {:induction false} CopiesHave(item: Schema, v: Value, n: nat)
    requires Has(item, v)
    ensures ItemsHave(item, Copies(v, n))
  {
    if n > 0 {
      CopiesHave(item, v, n - 1);
      assert Copies(v, n)[1..] == Copies(v, n - 1);
    }
  }

  /** std::vector::resize: the first elements stay, new ones are default-constructed. */
  function Resized(item: Schema, ts: seq<Value>, n: nat): (r: seq<Value>)
    ensures |r| == n
  {
    if n <= |ts| then ts[..n] else ts + Copies(Initial(item), n - |ts|)
  }

  // ----- reading into an object

  function ReadPrim(p: Prim, b: seq<byte>): (r: Read<Value>)
    ensures r.Got? ==> |r.rest| <= |b|
  {
    if p == Bytes then
      var (n, r1) :- Decode(b);
      var (text, r2) :- Take(r1, n);
      Got(Text(text), r2)
    else if p == String then
      var (text, r1) :- ReadString(b);
      Got(Text(text), r1)
    else if PrimSize(p) >= 0 then
      var (n, r1) :- ReadLE(b, PrimSize(p));
      Got(Number(n), r1)
    else Abort
  }

  /** BinaryReadArchive: the data of `s` at the front of `b`, read over the object `t`.  `Short` is error(). */
  function ReadInto(s: Schema, b: seq<byte>, t: Value): (r: Read<Value>)
    requires Visited(s) && Has(s, t)
    ensures r.Got? ==> |r.rest| <= |b|
    decreases s, 0
  {
    match s
    case Prim(p) => ReadPrim(p, b)
    case Enum(_, _) =>
      var (n, r1) :- Decode(b);
      Got(Number(n), r1)
    case Object(_, fields) =>
      var (vs, r1) :- ReadFieldsInto(fields, b, t.parts);
      Got(Parts(vs), r1)
    case Array(item) =>
      var (n, r1) :- Decode(b);
      ResizedHave(item, t.parts, n);
      var (vs, r2) :- ReadItemsInto(item, r1, Resized(item, t.parts, n));
      Got(Parts(vs), r2)
    case FixedArray(_, item) =>
      var (vs, r1) :- ReadItemsInto(item, b, t.parts);
      Got(Parts(vs), r1)
    case Union(alts) =>
      var (present, r1) :- ReadLE(b, 1);
      if present == 0 then Got(t, r1)
      else if present == 1 then
        InitialHas(alts[1]);
        var (v, r2) :- ReadInto(alts[1], r1, Initial(alts[1]));
        Got(Choice(1, v), r2)
      else Short
  }

  function ReadFieldsInto(fields: seq<Field>, b: seq<byte>, ts: seq<Value>): (r: Read<seq<Value>>)
    requires FieldsVisited(fields) && FieldsHave(fields, ts)
    ensures r.Got? ==> |r.rest| <= |b|
    decreases fields, 0
  {
    if fields == [] then Got([], b)
    else
      var (v, r1) :- ReadInto(fields[0].schema, b, ts[0]);
      var (vs, r2) :- ReadFieldsInto(fields[1..], r1, ts[1..]);
      Got([v] + vs, r2)
  }

  function ReadItemsInto(item: Schema, b: seq<byte>, ts: seq<Value>): (r: Read<seq<Value>>)
    requires Visited(item) && ItemsHave(item, ts)
    ensures r.Got? ==> |r.rest| <= |b|
    decreases item, |ts|
  {
    if ts == [] then Got([], b)
    else
      var (v, r1) :- ReadInto(item, b, ts[0]);
      var (vs, r2) :- ReadItemsInto(item, r1, ts[1..]);
      Got([v] + vs, r2)
  }

  lemma {:induction false} ItemsHavePrefix(item: Schema, ts: seq<Value>, n: nat)
    requires ItemsHave(item, ts) && n <= |ts|
    ensures ItemsHave(item, ts[..n])
    decreases n
  {
    if n > 0 {
      ItemsHavePrefix(item, ts[1..], n - 1);
      assert ts[..n][1..] == ts[1..][..n - 1];
    }
  }

  lemma {:induction false} ItemsHaveAppend(item: Schema, a: seq<Value>, b: seq<Value>)
    requires ItemsHave(item, a) && ItemsHave(item, b)
    ensures ItemsHave(item, a + b)
    decreases |a|
  {
    if a == [] {
      assert a + b == b;
    } else {
      ItemsHaveAppend(item, a[1..], b);
      assert (a + b)[1..] == a[1..] + b;
    }
  }

  lemma ResizedHave(item: Schema, ts: seq<Value>, n: nat)
    requires Visited(item) && ItemsHave(item, ts)
    ensures ItemsHave(item, Resized(item, ts, n))
  {
    if n <= |ts| {
      ItemsHavePrefix(item, ts, n);
    } else {
      InitialHas(item);
      CopiesHave(item, Initial(item), n - |ts|);
      ItemsHaveAppend(item, ts, Copies(Initial(item), n - |ts|));
    }
  }

  // ----- what the object then holds

  /** The data says `v` and the object held `t`: an optional the data calls absent is left as it was. */
  function Merge(s: Schema, v: Value, t: Value): Value
    requires Visited(s) && Has(s, v) && Has(s, t)
    decreases s, 0
  {
    match s
    case Prim(_) => v
    case Enum(_, _) => v
    case Object(_, fields) => Parts(MergeFields(fields, v.parts, t.parts))
    case Array(item) =>
      ResizedHave(item, t.parts, |v.parts|);
      Parts(MergeItems(item, v.parts, Resized(item, t.parts, |v.parts|)))
    case FixedArray(_, item) => Parts(MergeItems(item, v.parts, t.parts))
    case Union(alts) =>
      if v.index == 0 then t
      else
        InitialHas(alts[1]);
        Choice(1, Merge(alts[1], v.chosen, Initial(alts[1])))
  }

  function MergeFields(fields: seq<Field>, vs: seq<Value>, ts: seq<Value>): (r: seq<Value>)
    requires FieldsVisited(fields) && FieldsHave(fields, vs) && FieldsHave(fields, ts)
    ensures |r| == |fields|
    decreases fields, 0
  {
    if fields == [] then []
    else [Merge(fields[0].schema, vs[0], ts[0])] + MergeFields(fields[1..], vs[1..], ts[1..])
  }

  function MergeItems(item: Schema, vs: seq<Value>, ts: seq<Value>): (r: seq<Value>)
    requires Visited(item) && ItemsHave(item, vs) && ItemsHave(item, ts) && |vs| == |ts|
    ensures |r| == |vs|
    decreases item, |vs|
  {
    if vs == [] then [] else [Merge(item, vs[0], ts[0])] + MergeItems(item, vs[1..], ts[1..])
  }

  /** What the object then holds is a value of its type. */
  lemma {:induction false} MergeHas(s: Schema, v: Value, t: Value)
    requires Visited(s) && Has(s, v) && Has(s, t)
    ensures Has(s, Merge(s, v, t))
    decreases s, 0
  {
    match s {
      case Object(_, fields) => MergeFieldsHave(fields, v.parts, t.parts);
      case Array(item) =>
        ResizedHave(item, t.parts, |v.parts|);
        MergeItemsHave(item, v.parts, Resized(item, t.parts, |v.parts|));
      case FixedArray(_, item) => MergeItemsHave(item, v.parts, t.parts);
      case Union(alts) =>
        if v.index == 1 {
          InitialHas(alts[1]);
          MergeHas(alts[1], v.chosen, Initial(alts[1]));
        }
      case _ =>
    }
  }

  lemma {:induction false} MergeFieldsHave(fields: seq<Field>, vs: seq<Value>, ts: seq<Value>)
    requires FieldsVisited(fields) && FieldsHave(fields, vs) && FieldsHave(fields, ts)
    ensures FieldsHave(fields, MergeFields(fields, vs, ts))
    decreases fields, 0
  {
    if fields != [] {
      MergeHas(fields[0].schema, vs[0], ts[0]);
      MergeFieldsHave(fields[1..], vs[1..], ts[1..]);
      assert MergeFields(fields, vs, ts)[1..] == MergeFields(fields[1..], vs[1..], ts[1..]);
    }
  }

  lemma {:induction false} MergeItemsHave(item: Schema, vs: seq<Value>, ts: seq<Value>)
    requires Visited(item) && ItemsHave(item, vs) && ItemsHave(item, ts) && |vs| == |ts|
    ensures ItemsHave(item, MergeItems(item, vs, ts))
    decreases item, |vs|
  {
    if vs != [] {
      MergeHas(item, vs[0], ts[0]);
      MergeItemsHave(item, vs[1..], ts[1..]);
      assert MergeItems(item, vs, ts)[1..] == MergeItems(item, vs[1..], ts[1..]);
    }
  }

  lemma ReadPrimAfterData(p: Prim, v: Value, rest: seq<byte>)
    requires Visited(Prim(p)) && PrimHas(p, v)
    ensures ReadPrim(p, PrimData(p, v) + rest) == Got(v, rest)
  {
    if p == Bytes {
      CountThen(|v.text|, v.text, rest);
      TakePrefix(v.text, rest);
    } else if p == String {
      ReadStringAfterStr(v.text, rest);
    } else {
      assert Pow256(1) == 256;
      ReadLEAfterLE(v.n, PrimSize(p), rest);
    }
  }

  /** Reading consumes exactly the bytes written, whatever follows, and leaves the object merged. */
  lemma {:induction false} ReadIntoAfterData(s: Schema, v: Value, t: Value, rest: seq<byte>)
    requires Visited(s) && Has(s, v) && Has(s, t)
    ensures ReadInto(s, Data(s, v) + rest, t) == Got(Merge(s, v, t), rest)
    decreases s, 0
  {
    match s {
      case Prim(p) => ReadPrimAfterData(p, v, rest);
      case Enum(_, _) => DecodeAfterEncode(v.n, rest);
      case Object(_, fields) => ReadFieldsAfterData(fields, v.parts, t.parts, rest);
      case Array(item) => ReadArrayAfterData(item, v, t, rest);
      case FixedArray(_, item) => ReadItemsAfterData(item, v.parts, t.parts, rest);
      case Union(alts) => ReadOptionalAfterData(alts, v, t, rest);
    }
  }

  lemma {:induction false} ReadArrayAfterData(item: Schema, v: Value, t: Value, rest: seq<byte>)
    requires Visited(item) && Has(Array(item), v) && Has(Array(item), t)
    ensures ReadInto(Array(item), Data(Array(item), v) + rest, t) == Got(Merge(Array(item), v, t), rest)
    decreases item, |v.parts| + 1
  {
    var n := |v.parts|;
    CountThen(n, ItemsData(item, v.parts), rest);
    ResizedHave(item, t.parts, n);
    ReadItemsAfterData(item, v.parts, Resized(item, t.parts, n), rest);
  }

  lemma {:induction false} ReadOptionalAfterData(alts: seq<Schema>, v: Value, t: Value, rest: seq<byte>)
    requires Visited(Union(alts)) && Has(Union(alts), v) && Has(Union(alts), t)
    ensures ReadInto(Union(alts), Data(Union(alts), v) + rest, t) == Got(Merge(Union(alts), v, t), rest)
    decreases alts, 0
  {
    if v.index == 0 {
      assert Data(alts[0], v.chosen) == [] && Data(Union(alts), v) + rest == [0] + rest;
      ReadOneByte(0, rest);
    } else {
      var d := Data(alts[1], v.chosen);
      Regroup([1], d, rest);
      ReadOneByte(1, d + rest);
      InitialHas(alts[1]);
      ReadIntoAfterData(alts[1], v.chosen, Initial(alts[1]), rest);
    }
  }

  lemma {:induction false} ReadFieldsAfterData(fields: seq<Field>, vs: seq<Value>, ts: seq<Value>, rest: seq<byte>)
    requires FieldsVisited(fields) && FieldsHave(fields, vs) && FieldsHave(fields, ts)
    ensures ReadFieldsInto(fields, FieldsData(fields, vs) + rest, ts) == Got(MergeFields(fields, vs, ts), rest)
    decreases fields, 0
  {
    if fields == [] {
      assert [] + rest == rest;
    } else {
      var d, ds := Data(fields[0].schema, vs[0]), FieldsData(fields[1..], vs[1..]);
      Regroup(d, ds, rest);
      ReadIntoAfterData(fields[0].schema, vs[0], ts[0], ds + rest);
      ReadFieldsAfterData(fields[1..], vs[1..], ts[1..], rest);
    }
  }

  lemma {:induction false} ReadItemsAfterData(item: Schema, vs: seq<Value>, ts: seq<Value>, rest: seq<byte>)
    requires Visited(item) && ItemsHave(item, vs) && ItemsHave(item, ts) && |vs| == |ts|
    ensures ReadItemsInto(item, ItemsData(item, vs) + rest, ts) == Got(MergeItems(item, vs, ts), rest)
    decreases item, |vs|
  {
    if vs == [] {
      assert [] + rest == rest;
    } else {
      var d, ds := Data(item, vs[0]), ItemsData(item, vs[1..]);
      Regroup(d, ds, rest);
      ReadIntoAfterData(item, vs[0], ts[0], ds + rest);
      ReadItemsAfterData(item, vs[1..], ts[1..], rest);
    }
  }

  // ----- exactly when the object read is the value written

  /** The optionals that reading might leave alone are empty: those in the object, and those in the default-constructed
      objects that reading puts into vectors and optionals. */
  predicate Clean(s: Schema, t: Value)
    requires Visited(s) && Has(s, t)
    decreases s, 0
  {
    match s
    case Prim(_) => true
    case Enum(_, _) => true
    case Object(_, fields) => FieldsClean(fields, t.parts)
    case Array(item) => ItemsClean(item, t.parts) && (|t.parts| < TWO64 - 1 ==> InitialClean(item))
    case FixedArray(_, item) => ItemsClean(item, t.parts)
    case Union(alts) => t.index == 0 && InitialClean(alts[1])
  }

  predicate InitialClean(s: Schema)
    requires Visited(s)
    decreases s, 1
  {
    InitialHas(s);
    Clean(s, Initial(s))
  }

  predicate FieldsClean(fields: seq<Field>, ts: seq<Value>)
    requires FieldsVisited(fields) && FieldsHave(fields, ts)
    decreases fields, 0
  {
    fields != [] ==> Clean(fields[0].schema, ts[0]) && FieldsClean(fields[1..], ts[1..])
  }

  predicate ItemsClean(item: Schema, ts: seq<Value>)
    requires Visited(item) && ItemsHave(item, ts)
    decreases item, |ts| + 1
  {
    ts != [] ==> Clean(item, ts[0]) && ItemsClean(item, ts[1..])
  }

  lemma {:induction false} CleanMergesToValue(s: Schema, v: Value, t: Value)
    requires Visited(s) && Has(s, v) && Has(s, t) && Clean(s, t)
    ensures Merge(s, v, t) == v
    decreases s, 0
  {
    match s {
      case Object(_, fields) => CleanFieldsMerge(fields, v.parts, t.parts);
      case Array(item) =>
        ResizedHave(item, t.parts, |v.parts|);
        ResizedClean(item, t.parts, |v.parts|);
        CleanItemsMerge(item, v.parts, Resized(item, t.parts, |v.parts|));
      case FixedArray(_, item) => CleanItemsMerge(item, v.parts, t.parts);
      case Union(alts) =>
        if v.index == 1 {
          InitialHas(alts[1]);
          CleanMergesToValue(alts[1], v.chosen, Initial(alts[1]));
        }
      case _ =>
    }
  }

  lemma {:induction false} CleanFieldsMerge(fields: seq<Field>, vs: seq<Value>, ts: seq<Value>)
    requires FieldsVisited(fields) && FieldsHave(fields, vs) && FieldsHave(fields, ts) && FieldsClean(fields, ts)
    ensures MergeFields(fields, vs, ts) == vs
    decreases fields, 0
  {
    if fields != [] {
      CleanMergesToValue(fields[0].schema, vs[0], ts[0]);
      CleanFieldsMerge(fields[1..], vs[1..], ts[1..]);
      assert vs == [vs[0]] + vs[1..];
    }
  }

  lemma {:induction false} CleanItemsMerge(item: Schema, vs: seq<Value>, ts: seq<Value>)
    requires Visited(item) && ItemsHave(item, vs) && ItemsHave(item, ts) && |vs| == |ts| && ItemsClean(item, ts)
    ensures MergeItems(item, vs, ts) == vs
    decreases item, |vs|
  {
    if vs != [] {
      CleanMergesToValue(item, vs[0], ts[0]);
      CleanItemsMerge(item, vs[1..], ts[1..]);
      assert vs == [vs[0]] + vs[1..];
    }
  }

  /** Items have a property of a sequence as a whole when each one has it. */
  lemma {:induction false} ItemsHaveAt(item: Schema, ts: seq<Value>)
    ensures ItemsHave(item, ts) <==> forall k :: 0 <= k < |ts| ==> Has(item, ts[k])
  {
    if ts != [] {
      ItemsHaveAt(item, ts[1..]);
      assert forall k :: 1 <= k < |ts| ==> ts[k] == ts[1..][k - 1];
    }
  }

  lemma {:induction false} ItemsCleanAt(item: Schema, ts: seq<Value>)
    requires Visited(item) && ItemsHave(item, ts)
    ensures forall k :: 0 <= k < |ts| ==> Has(item, ts[k])
    ensures ItemsClean(item, ts) <==> forall k :: 0 <= k < |ts| ==> Clean(item, ts[k])
    decreases |ts|
  {
    ItemsHaveAt(item, ts);
    if ts != [] {
      ItemsCleanAt(item, ts[1..]);
      assert forall k :: 1 <= k < |ts| ==> ts[k] == ts[1..][k - 1];
    }
  }

  lemma ResizedClean(item: Schema, ts: seq<Value>, n: nat)
    requires Visited(item) && ItemsHave(item, ts) && ItemsHave(item, Resized(item, ts, n))
    requires ItemsClean(item, ts) && (n > |ts| ==> InitialClean(item))
    ensures ItemsClean(item, Resized(item, ts, n))
  {
    ItemsCleanAt(item, ts);
    ItemsCleanAt(item, Resized(item, ts, n));
    if n > |ts| {
      CopiesAt(Initial(item), n - |ts|);
    }
  }

  lemma {:induction false} CopiesAt(v: Value, n: nat)
    ensures forall k :: 0 <= k < n ==> Copies(v, n)[k] == v
  {
    if n > 0 {
      CopiesAt(v, n - 1);
    }
  }

  lemma {:induction false} MergeItemsAt(item: Schema, vs: seq<Value>, ts: seq<Value>, k: nat)
    requires Visited(item) && ItemsHave(item, vs) && ItemsHave(item, ts) && k < |vs| == |ts|
    requires Has(item, vs[k]) && Has(item, ts[k])
    ensures MergeItems(item, vs, ts)[k] == Merge(item, vs[k], ts[k])
    decreases |vs|
  {
    if k > 0 {
      MergeItemsAt(item, vs[1..], ts[1..], k - 1);
    }
  }

  /** An unclean object has a value it misreads. */
  lemma {:induction false} UncleanMisreads(s: Schema, t: Value) returns (v: Value)
    requires Visited(s) && Has(s, t) && !Clean(s, t)
    ensures Has(s, v) && Merge(s, v, t) != v
    decreases s, 0
  {
    match s {
      case Object(_, fields) =>
        var vs := UncleanFields(fields, t.parts);
        v := Parts(vs);
      case Array(item) =>
        if !ItemsClean(item, t.parts) {
          var vs := UncleanItems(item, t.parts);
          v := Parts(vs);
          assert Resized(item, t.parts, |vs|) == t.parts;
        } else {
          InitialHas(item);
          var w := UncleanMisreads(item, Initial(item));
          v := Parts(t.parts + [w]);
          UncleanLast(item, t.parts, w);
        }
      case FixedArray(_, item) =>
        var vs := UncleanItems(item, t.parts);
        v := Parts(vs);
      case Union(alts) =>
        if t.index != 0 {
          v := Choice(0, Nothing);
        } else {
          InitialHas(alts[1]);
          var w := UncleanMisreads(alts[1], Initial(alts[1]));
          v := Choice(1, w);
        }
    }
  }

  lemma {:induction false} UncleanFields(fields: seq<Field>, ts: seq<Value>) returns (vs: seq<Value>)
    requires FieldsVisited(fields) && FieldsHave(fields, ts) && !FieldsClean(fields, ts)
    ensures FieldsHave(fields, vs) && MergeFields(fields, vs, ts) != vs
    decreases fields, 0
  {
    if !Clean(fields[0].schema, ts[0]) {
      var w := UncleanMisreads(fields[0].schema, ts[0]);
      vs := [w] + ts[1..];
      assert MergeFields(fields, vs, ts)[0] != vs[0];
    } else {
      var ws := UncleanFields(fields[1..], ts[1..]);
      vs := [ts[0]] + ws;
      assert vs[1..] == ws && MergeFields(fields, vs, ts)[1..] == MergeFields(fields[1..], ws, ts[1..]);
    }
  }

  lemma {:induction false} UncleanItems(item: Schema, ts: seq<Value>) returns (vs: seq<Value>)
    requires Visited(item) && ItemsHave(item, ts) && !ItemsClean(item, ts)
    ensures |vs| == |ts| && ItemsHave(item, vs) && MergeItems(item, vs, ts) != vs
    decreases item, |ts|
  {
    if !Clean(item, ts[0]) {
      var w := UncleanMisreads(item, ts[0]);
      vs := [w] + ts[1..];
      assert MergeItems(item, vs, ts)[0] != vs[0];
    } else {
      var ws := UncleanItems(item, ts[1..]);
      vs := [ts[0]] + ws;
      assert vs[1..] == ws && MergeItems(item, vs, ts)[1..] == MergeItems(item, ws, ts[1..]);
    }
  }

  lemma UncleanLast(item: Schema, ts: seq<Value>, w: Value)
    requires Visited(item) && ItemsHave(item, ts) && Has(item, w)
    requires Has(item, Initial(item)) && Merge(item, w, Initial(item)) != w
    ensures
      var vs := ts + [w];
      && ItemsHave(item, vs) && ItemsHave(item, Resized(item, ts, |vs|))
      && MergeItems(item, vs, Resized(item, ts, |vs|)) != vs
  {
    var vs := ts + [w];
    ItemsHaveAppend(item, ts, [w]);
    ResizedHave(item, ts, |vs|);
    CopiesAt(Initial(item), 1);
    MergeItemsAt(item, vs, Resized(item, ts, |vs|), |ts|);
  }

  /** Reading back gives every value written if and only if the object read into was clean. */
  lemma ReadsBackIffClean(s: Schema, t: Value)
    requires Visited(s) && Has(s, t)
    ensures Clean(s, t) <==> forall v, rest :: Has(s, v) ==> ReadInto(s, Data(s, v) + rest, t) == Got(v, rest)
  {
    if Clean(s, t) {
      forall v, rest | Has(s, v) ensures ReadInto(s, Data(s, v) + rest, t) == Got(v, rest) {
        ReadIntoAfterData(s, v, t, rest);
        CleanMergesToValue(s, v, t);
      }
    } else {
      var v := UncleanMisreads(s, t);
      ReadIntoAfterData(s, v, t, []);
    }
  }

  /** A value left over: whatever an optional held, it still holds after reading "absent". */
  lemma AbsentLeavesOldValue(alts: seq<Schema>, t: Value, rest: seq<byte>)
    requires Visited(Union(alts)) && Has(Union(alts), t)
    ensures Has(Union(alts), Choice(0, Nothing))
    ensures ReadInto(Union(alts), Data(Union(alts), Choice(0, Nothing)) + rest, t) == Got(t, rest)
  {
    ReadOptionalAfterData(alts, Choice(0, Nothing), t, rest);
  }

  // ----- the archives as they run

  /** BinaryWriteArchive. */
  method Write(s: Schema, v: Value, ostr: OStream)
    requires Visited(s) && Has(s, v)
    modifies ostr
    ensures ostr.data == old(ostr.data) + Data(s, v)
    decreases s, 0
  {
    ghost var was := ostr.data;
    match s {
      case Prim(p) => WritePrim(p, v, ostr);
      case Enum(_, _) => WriteVaruint(ostr, v.n);
      case Object(_, fields) => WriteFields(fields, v.parts, ostr);
      case Array(item) =>
        WriteVaruint(ostr, |v.parts|);
        WriteItems(item, v.parts, ostr);
        Assoc(was, Encode(|v.parts|), ItemsData(item, v.parts));
      case FixedArray(_, item) => WriteItems(item, v.parts, ostr);
      case Union(alts) =>
        if v.index == 0 {
          WriteVaruint(ostr, 0);
        } else {
          WriteVaruint(ostr, 1);
          Write(alts[1], v.chosen, ostr);
          Assoc(was, Encode(1), Data(alts[1], v.chosen));
        }
    }
  }

  method WritePrim(p: Prim, v: Value, ostr: OStream)
    requires Visited(Prim(p)) && PrimHas(p, v)
    modifies ostr
    ensures ostr.data == old(ostr.data) + PrimData(p, v)
  {
    if p == Bytes || p == String {
      WriteVaruint(ostr, |v.text|);
      ostr.Write(v.text);
    } else {
      ostr.Write(LE(v.n, PrimSize(p)));
    }
  }

  method WriteFields(fields: seq<Field>, vs: seq<Value>, ostr: OStream)
    requires FieldsVisited(fields) && FieldsHave(fields, vs)
    modifies ostr
    ensures ostr.data == old(ostr.data) + FieldsData(fields, vs)
    decreases fields, 0
  {
    if fields != [] {
      ghost var was := ostr.data;
      Write(fields[0].schema, vs[0], ostr);
      WriteFields(fields[1..], vs[1..], ostr);
      Assoc(was, Data(fields[0].schema, vs[0]), FieldsData(fields[1..], vs[1..]));
    }
  }

  method WriteItems(item: Schema, vs: seq<Value>, ostr: OStream)
    requires Visited(item) && ItemsHave(item, vs)
    modifies ostr
    ensures ostr.data == old(ostr.data) + ItemsData(item, vs)
    decreases item, 1
  {
    for i := 0 to |vs|
      invariant ostr.data + ItemsData(item, vs[i..]) == old(ostr.data) + ItemsData(item, vs)
    {
      ItemsHaveAt(item, vs);
      ghost var before := ostr.data;
      Write(item, vs[i], ostr);
      assert vs[i..][0] == vs[i] && vs[i..][1..] == vs[i + 1..];
      Assoc(before, Data(item, vs[i]), ItemsData(item, vs[i + 1..]));
    }
    assert vs[|vs|..] == [];
  }

  /** BinaryReadArchive. */
  method Read(s: Schema, st: BufferReadStream, t: Value) returns (o: Outcome<Value>)
    requires Visited(s) && Has(s, t) && st.Valid()
    modifies st
    ensures st.Valid() && Agrees(o, ReadInto(s, old(st.Rest()), t), st.Rest())
    decreases s, 0
  {
    match s {
      case Prim(p) => o := ReadPrimFrom(p, st);
      case Enum(_, _) =>
        var n := Count(st);
        o := if n.Fine? then Fine(Number(n.value)) else Threw;
      case Object(_, fields) =>
        var vs := ReadFieldsFrom(fields, st, t.parts);
        o := match vs case Fine(parts) => Fine(Parts(parts)) case Threw => Threw case Aborted => Aborted;
      case Array(item) =>
        var n := Count(st);
        if !n.Fine? { return Threw; }
        ResizedHave(item, t.parts, n.value);
        var vs := ReadItemsFrom(item, st, Resized(item, t.parts, n.value));
        o := match vs case Fine(parts) => Fine(Parts(parts)) case Threw => Threw case Aborted => Aborted;
      case FixedArray(_, item) =>
        var vs := ReadItemsFrom(item, st, t.parts);
        o := match vs case Fine(parts) => Fine(Parts(parts)) case Threw => Threw case Aborted => Aborted;
      case Union(alts) => o := ReadOptionalFrom(alts, st, t);
    }
  }

  method ReadPrimFrom(p: Prim, st: BufferReadStream) returns (o: Outcome<Value>)
    requires Visited(Prim(p)) && st.Valid()
    modifies st
    ensures st.Valid() && Agrees(o, ReadPrim(p, old(st.Rest())), st.Rest())
  {
    if p == Bytes {
      var size := Count(st);
      if !size.Fine? { return Threw; }
      ghost var b := st.Rest();
      var text := st.Read(size.value);
      if st.lastRead != size.value { return Threw; }
      assert b[..size.value] == text && b[size.value..] == st.Rest();
      o := Fine(Text(text));
    } else if p == String {
      var text := StringOf(st);
      o := match text case Fine(t) => Fine(Text(t)) case Threw => Threw case Aborted => Aborted;
    } else {
      var n := Scalar(st, PrimSize(p));
      o := if n.Fine? then Fine(Number(n.value)) else Threw;
    }
  }

  method ReadOptionalFrom(alts: seq<Schema>, st: BufferReadStream, t: Value) returns (o: Outcome<Value>)
    requires Visited(Union(alts)) && Has(Union(alts), t) && st.Valid()
    modifies st
    ensures st.Valid() && Agrees(o, ReadInto(Union(alts), old(st.Rest()), t), st.Rest())
    decreases alts, 1
  {
    var present := Scalar(st, 1);
    if !present.Fine? { return Threw; }
    if present.value == 0 {
      o := Fine(t);
    } else if present.value == 1 {
      InitialHas(alts[1]);
      var v := Read(alts[1], st, Initial(alts[1]));
      o := match v case Fine(x) => Fine(Choice(1, x)) case Threw => Threw case Aborted => Aborted;
    } else {
      o := Threw;
    }
  }

  method ReadFieldsFrom(fields: seq<Field>, st: BufferReadStream, ts: seq<Value>) returns (o: Outcome<seq<Value>>)
    requires FieldsVisited(fields) && FieldsHave(fields, ts) && st.Valid()
    modifies st
    ensures st.Valid() && Agrees(o, ReadFieldsInto(fields, old(st.Rest()), ts), st.Rest())
    decreases fields, 0
  {
    if fields == [] {
      return Fine([]);
    }
    var v := Read(fields[0].schema, st, ts[0]);
    if v.Threw? { return Threw; }
    if v.Aborted? { return Aborted; }
    var vs := ReadFieldsFrom(fields[1..], st, ts[1..]);
    o := match vs case Fine(others) => Fine([v.value] + others) case Threw => Threw case Aborted => Aborted;
  }

  lemma ItemsStep(item: Schema, b: seq<byte>, todo: seq<Value>, done: seq<Value>)
    requires Visited(item) && ItemsHave(item, todo) && todo != []
    ensures
      var r := ReadInto(item, b, todo[0]);
      Prepend(done, ReadItemsInto(item, b, todo)) ==
        if r.Got? then Prepend(done + [r.value], ReadItemsInto(item, r.rest, todo[1..])) else r.PropagateFailure()
  {
    var r := ReadInto(item, b, todo[0]);
    if r.Got? {
      PrependOne(done, r.value, ReadItemsInto(item, r.rest, todo[1..]));
    }
  }

  method ReadItemsFrom(item: Schema, st: BufferReadStream, ts: seq<Value>) returns (o: Outcome<seq<Value>>)
    requires Visited(item) && ItemsHave(item, ts) && st.Valid()
    modifies st
    ensures st.Valid() && Agrees(o, ReadItemsInto(item, old(st.Rest()), ts), st.Rest())
    decreases item, 1
  {
    var value: seq<Value> := ts;
    ghost var whole := ReadItemsInto(item, st.Rest(), ts);
    PrependNone(whole);
    ghost var done: seq<Value>, todo := [], ts;
    for i := 0 to |ts|
      invariant st.Valid() && |done| == i && |done| + |todo| == |ts| && value == done + todo && ItemsHave(item, todo)
      invariant whole == Prepend(done, ReadItemsInto(item, st.Rest(), todo))
    {
      assert value[i] == todo[0];
      ItemsStep(item, st.Rest(), todo, done);
      var v := Read(item, st, value[i]);
      if !v.Fine? { return if v.Threw? then Threw else Aborted; }
      Replaced(done, todo, v.value);
      value := value[i := v.value];
      done, todo := done + [v.value], todo[1..];
    }
    assert todo == [] && done + [] == done;
    o := Fine(value);
  }
}
