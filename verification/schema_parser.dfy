/** The schema parser: what it rebuilds from a schema's bytes, and how the rebuilt elements skip over data. */
module SchemaParser {
  import opened Bytes
  import opened Varuint
  import opened BinaryFormat

  /** BinarySchemaParser::Element.  `kind` is the format's type number; `binarySchema` is the element's own bytes. */
  datatype Element = Element(
    kind: nat,
    name: seq<byte>,
    intSize: int,
    fixedSize: int,
    arraySize: nat,
    objectFlags: nat,
    children: seq<Element>,
    fields: seq<ElementField>,
    enumItems: map<nat, seq<byte>>,
    binarySchema: seq<byte>)

  datatype ElementField = ElementField(
    flags: nat, name: seq<byte>, aliases: seq<seq<byte>>, element: Element, default: seq<byte>)

  const FINAL := 0
  const LAST_TYPE := 23

  // ----- skipping

  function Drop(b: seq<byte>, n: nat): (r: seq<byte>)
    ensures |r| <= |b|
  {
    if n <= |b| then b[n..] else []
  }

  function ReadString(b: seq<byte>): (r: Read<seq<byte>>)
    ensures r.Got? ==> |r.rest| < |b|
  {
    var (n, r1) :- Decode(b);
    if n > MAX_STRING then Abort else Take(r1, n)
  }

  /** Element::Ignore. */
  function Skip(e: Element, b: seq<byte>): (r: Read<()>)
    ensures r.Got? ==> |r.rest| <= |b|
    decreases e, 0
  {
    if e.fixedSize >= 0 then Got((), Drop(b, e.fixedSize))
    else if e.kind == 5 || e.kind == 6 then
      var r := Decode(b);
      Got((), if r.Got? then r.rest else [])
    else if e.kind == 9 || e.kind == 10 then
      var (n, r1) :- Decode(b);
      Got((), Drop(r1, n))
    else if e.kind == 16 then SkipFields(e.fields, b)
    else if e.kind == 17 then (if e.children == [] then Abort else Skip(e.children[0], b))
    else if e.kind == 18 then
      var (n, r1) :- Decode(b);
      if e.children == [] then Abort else SkipMany(e.children[0], n, r1)
    else if e.kind == 19 then
      if e.children == [] then Abort else SkipMany(e.children[0], e.arraySize, b)
    else if e.kind == 20 then
      var (n, r1) :- Decode(b);
      if e.children == [] then Abort else SkipPairs(e.children[0], n, r1)
    else if e.kind == 21 then
      var (i, r1) :- Decode(b);
      if i < |e.children| then Skip(e.children[i], r1) else Abort
    else if 11 <= e.kind <= 15 then Got((), b)
    else Abort
  }

  function SkipFields(fields: seq<ElementField>, b: seq<byte>): (r: Read<()>)
    ensures r.Got? ==> |r.rest| <= |b|
    decreases fields, 0
  {
    if fields == [] then Got((), b)
    else
      var (_, r1) :- Skip(fields[0].element, b);
      SkipFields(fields[1..], r1)
  }

  /** `n` items: one jump when their size is fixed. */
  function SkipMany(e: Element, n: nat, b: seq<byte>): (r: Read<()>)
    ensures r.Got? ==> |r.rest| <= |b|
    decreases e, n + 1
  {
    if e.fixedSize >= 0 then Got((), Drop(b, n * e.fixedSize)) else SkipItems(e, n, b)
  }

  function SkipItems(e: Element, n: nat, b: seq<byte>): (r: Read<()>)
    ensures r.Got? ==> |r.rest| <= |b|
    decreases e, n
  {
    if n == 0 then Got((), b)
    else
      var (_, r1) :- Skip(e, b);
      SkipItems(e, n - 1, r1)
  }

  function SkipPairs(e: Element, n: nat, b: seq<byte>): (r: Read<()>)
    ensures r.Got? ==> |r.rest| <= |b|
    decreases e, n + 2
  {
    if n == 0 then Got((), b)
    else
      var (_, r1) :- SkipPair(e, b);
      SkipPairs(e, n - 1, r1)
  }

  function SkipPair(e: Element, b: seq<byte>): (r: Read<()>)
    ensures r.Got? ==> |r.rest| <= |b|
    decreases e, 1
  {
    var (_, r1) :- ReadString(b);
    Skip(e, r1)
  }

  /** Element::ReadUIntLike. */
  function ReadUIntLike(e: Element, b: seq<byte>): (r: Read<nat>)
    ensures r.Got? ==> |r.rest| <= |b|
  {
    if e.kind == 4 then (if e.intSize in {1, 2, 4, 8} then ReadLE(b, e.intSize) else Abort)
    else if e.kind == 6 then Decode(b)
    else if e.kind == 17 && e.children != [] then ReadUIntLike(e.children[0], b)
    else Abort
  }

  // ----- parsing

  /** The bytes a recording stream over `b` has kept when `rest` is what is left. */
  function Recorded(b: seq<byte>, rest: seq<byte>): seq<byte>
    requires |rest| <= |b|
  {
    b[..|b| - |rest|]
  }

  function ElementFieldsSize(fields: seq<ElementField>): int {
    if fields == [] then 0
    else
      var first, others := fields[0].element.fixedSize, ElementFieldsSize(fields[1..]);
      if first < 0 || others < 0 then -1 else first + others
  }

  function Leaf(kind: nat, name: seq<byte>, intSize: int, fixedSize: int, binarySchema: seq<byte>): Element {
    Element(kind, name, intSize, fixedSize, 0, 0, [], [], map[], binarySchema)
  }

  /** The size the parser gives a type number that carries no more information. */
  function LeafSize(kind: nat): int {
    if kind == 1 then 0 else if kind == 2 then 1 else if kind == 7 then 4
    else if kind == 8 || kind == 22 || kind == 23 then 8 else -1
  }

  /** BinarySchemaParser::Impl::ReadType. */
  function ParseType(b: seq<byte>, name: seq<byte>): (r: Read<Element>)
    ensures r.Got? ==> |r.rest| < |b|
    decreases |b|, 0
  {
    var (kind, r1) :- Decode(b);
    if kind > LAST_TYPE then Abort
    else
      var (element, r2) :- ParseParts(kind, r1, name);
      Got(element.(binarySchema := Recorded(b, r2)), r2)
  }

  /** What follows the type number, by type; the element's own bytes are yet to be recorded. */
  function ParseParts(kind: nat, b: seq<byte>, name: seq<byte>): (r: Read<Element>)
    ensures r.Got? ==> |r.rest| <= |b| && r.value.kind == kind
    decreases |b|, 2
  {
    if kind == 3 || kind == 4 then
      var (size, r1) :- ReadLE(b, 1);
      Got(Leaf(kind, name, size, size, []), r1)
    else if kind == 16 then
      var (flags, r1) :- Decode(b);
      var (fields, r2) :- ParseFields(r1);
      Got(Leaf(16, name, -1, ElementFieldsSize(fields), []).(objectFlags := flags, fields := fields), r2)
    else if kind == 17 then
      var (parts, r1) :- ParseEnumParts(b, name);
      Got(Leaf(17, name, -1, parts.0.fixedSize, []).(children := [parts.0], enumItems := parts.1), r1)
    else if kind == 18 || kind == 20 then
      var (child, r1) :- ParseType(b, name);
      Got(Leaf(kind, name, -1, -1, []).(children := [child]), r1)
    else if kind == 19 then
      var (n, r1) :- Decode(b);
      var (child, r2) :- ParseType(r1, name);
      Got(Leaf(19, name, -1, -1, []).(arraySize := n, children := [child]), r2)
    else if kind == 21 then
      var (children, r1) :- ParseAlts(b, name);
      Got(Leaf(21, name, -1, -1, []).(children := children), r1)
    else Got(Leaf(kind, name, -1, LeafSize(kind), []), b)
  }

  /** The base type of an enumeration and its named values. */
  function ParseEnumParts(b: seq<byte>, name: seq<byte>): (r: Read<(Element, map<nat, seq<byte>>)>)
    ensures r.Got? ==> |r.rest| < |b|
    decreases |b|, 1
  {
    var (child, r1) :- ParseType(b, name);
    var (n, r2) :- Decode(r1);
    var (items, r3) :- ParseItems(child, n, r2, map[]);
    Got((child, items), r3)
  }

  /** The part of a field before its type: flags, name, aliases. */
  function ParseFieldHead(b: seq<byte>): (r: Read<(nat, seq<byte>, seq<seq<byte>>)>)
    ensures r.Got? ==> |r.rest| < |b|
  {
    var (flags, r1) :- Decode(b);
    var (name, r2) :- ReadString(r1);
    var (n, r3) :- Decode(r2);
    var (aliases, r4) :- ParseStrings(n, r3);
    Got((flags, name, aliases), r4)
  }

  /** The part after its type: a byte that says whether default data follows. */
  function ParseDefault(element: Element, b: seq<byte>): (r: Read<seq<byte>>)
    ensures r.Got? ==> |r.rest| < |b|
  {
    var (present, r1) :- ReadLE(b, 1);
    if present == 1 then
      var (_, r2) :- Skip(element, r1);
      Got(Recorded(r1, r2), r2)
    else Got([], r1)
  }

  /** BinarySchemaParser::Impl::ReadField; a final field is consumed whole and returned like any other. */
  function ParseField(b: seq<byte>): (r: Read<ElementField>)
    ensures r.Got? ==> |r.rest| < |b|
    decreases |b|, 0
  {
    var (head, r1) :- ParseFieldHead(b);
    var (element, r2) :- ParseType(r1, head.1);
    var (default, r3) :- ParseDefault(element, r2);
    Got(ElementField(head.0, head.1, head.2, element, default), r3)
  }

  /** Fields until a final one. */
  function ParseFields(b: seq<byte>): (r: Read<seq<ElementField>>)
    ensures r.Got? ==> |r.rest| < |b|
    decreases |b|, 1
  {
    var (field, r1) :- ParseField(b);
    if field.element.kind == FINAL then Got([], r1)
    else
      var (others, r2) :- ParseFields(r1);
      Got([field] + others, r2)
  }

  function ParseStrings(n: nat, b: seq<byte>): (r: Read<seq<seq<byte>>>)
    ensures r.Got? ==> |r.rest| <= |b|
  {
    if n == 0 then Got([], b)
    else
      var (first, r1) :- ReadString(b);
      var (others, r2) :- ParseStrings(n - 1, r1);
      Got([first] + others, r2)
  }

  /** Enumeration items; the first name given to a value stays. */
  function ParseItems(child: Element, n: nat, b: seq<byte>, sofar: map<nat, seq<byte>>): (r: Read<map<nat, seq<byte>>>)
    ensures r.Got? ==> |r.rest| <= |b|
    decreases n
  {
    if n == 0 then Got(sofar, b)
    else
      var (item, r1) :- ParseItem(child, b);
      ParseItems(child, n - 1, r1, Insert(sofar, item.0, item.1))
  }

  function ParseItem(child: Element, b: seq<byte>): (r: Read<(nat, seq<byte>)>)
    ensures r.Got? ==> |r.rest| <= |b|
  {
    var (value, r1) :- ReadUIntLike(child, b);
    var (name, r2) :- ReadString(r1);
    Got((value, name), r2)
  }

  /** std::map::insert. */
  function Insert<K, V>(m: map<K, V>, k: K, v: V): map<K, V> {
    if k in m then m else m[k := v]
  }

  /** Alternatives until a final one. */
  function ParseAlts(b: seq<byte>, name: seq<byte>): (r: Read<seq<Element>>)
    ensures r.Got? ==> |r.rest| < |b|
    decreases |b|, 1
  {
    var (first, r1) :- ParseType(b, name);
    if first.kind == FINAL then Got([], r1)
    else
      var (others, r2) :- ParseAlts(r1, name);
      Got([first] + others, r2)
  }

  // ----- the element a schema stands for

  /** The tree a parser should rebuild for `s`: same kinds, names, items and sizes, every node with its own bytes. */
  function ElementOf(s: Schema, name: seq<byte>): (e: Element)
    ensures e.kind == Code(s) && e.name == name && e.fixedSize == FixedSize(s) && e.binarySchema == Emit(s)
    decreases s, 0
  {
    var plain := Leaf(Code(s), name, -1, FixedSize(s), Emit(s));
    match s
    case Prim(p) => if p.FixedInt? || p.FixedUInt? then plain.(intSize := p.size) else plain
    case Object(flags, fields) => plain.(objectFlags := flags, fields := ElementFieldsOf(fields))
    case Enum(base, items) => plain.(children := [ElementOfPrim(base, name)], enumItems := ItemMap(items, map[]))
    case Array(item) => plain.(children := [ElementOf(item, name)])
    case FixedArray(size, item) => plain.(arraySize := size, children := [ElementOf(item, name)])
    case Map(item) => plain.(children := [ElementOf(item, name)])
    case Union(alts) => plain.(children := ElementsOf(alts, name))
  }

  function ElementOfPrim(p: Prim, name: seq<byte>): Element {
    Leaf(PrimCode(p), name, if p.FixedInt? || p.FixedUInt? then p.size else -1, PrimSize(p), EmitPrim(p))
  }

  function ElementFieldsOf(fields: seq<Field>): (r: seq<ElementField>)
    ensures |r| == |fields|
    decreases fields, 0
  {
    if fields == [] then []
    else
      var f := fields[0];
      [ElementField(f.flags, f.name, f.aliases, ElementOf(f.schema, f.name),
                    if f.default.Some? then Data(f.schema, f.default.value) else [])]
      + ElementFieldsOf(fields[1..])
  }

  function ElementsOf(alts: seq<Schema>, name: seq<byte>): (r: seq<Element>)
    ensures |r| == |alts|
    decreases alts, 0
  {
    if alts == [] then [] else [ElementOf(alts[0], name)] + ElementsOf(alts[1..], name)
  }

  function ItemMap(items: seq<(nat, seq<byte>)>, sofar: map<nat, seq<byte>>): map<nat, seq<byte>> {
    if items == [] then sofar else ItemMap(items[1..], Insert(sofar, items[0].0, items[0].1))
  }

  // ----- Ignore consumes exactly what the writer emitted

  lemma ReadStringAfterStr(t: seq<byte>, rest: seq<byte>)
    requires IsString(t)
    ensures ReadString(Str(t) + rest) == Got(t, rest)
  {
    CountThen(|t|, t, rest);
    TakePrefix(t, rest);
  }

  lemma DropPrefix(d: seq<byte>, rest: seq<byte>)
    ensures Drop(d + rest, |d|) == rest
  {
  }

  lemma SkipPrimData(p: Prim, name: seq<byte>, v: Value, rest: seq<byte>)
    requires PrimHas(p, v)
    ensures Skip(ElementOfPrim(p, name), PrimData(p, v) + rest) == Got((), rest)
  {
    if PrimSize(p) >= 0 {
      FixedSizeIsSize(Prim(p), v);
      DropPrefix(PrimData(p, v), rest);
    } else if p == Varint {
      DecodeAfterEncode(ZigZag(v.i), rest);
    } else if p == Varuint {
      DecodeAfterEncode(v.n, rest);
    } else {
      CountThen(|v.text|, v.text, rest);
      DropPrefix(v.text, rest);
    }
  }

  /** For every schema and every value of it, whatever follows. */
  lemma {:induction false} SkipAfterData(s: Schema, name: seq<byte>, v: Value, rest: seq<byte>)
    requires Has(s, v)
    ensures Skip(ElementOf(s, name), Data(s, v) + rest) == Got((), rest)
    decreases s, 0
  {
    if FixedSize(s) >= 0 {
      FixedSizeIsSize(s, v);
      DropPrefix(Data(s, v), rest);
    } else {
      match s {
        case Prim(p) => SkipPrimData(p, name, v, rest);
        case Enum(base, _) => SkipPrimData(base, name, v, rest);
        case Object(_, fields) => SkipFieldsAfterData(fields, v.parts, rest);
        case Array(item) => SkipArrayData(item, name, v.parts, rest);
        case FixedArray(_, item) => SkipManyAfterData(item, name, v.parts, rest);
        case Map(item) => SkipMapData(item, name, v.pairs, rest);
        case Union(alts) => SkipUnionData(alts, name, v.index, v.chosen, rest);
      }
    }
  }

  lemma {:induction false} SkipArrayData(item: Schema, name: seq<byte>, vs: seq<Value>, rest: seq<byte>)
    requires |vs| < TWO64 && ItemsHave(item, vs)
    ensures Skip(ElementOf(Array(item), name), Encode(|vs|) + ItemsData(item, vs) + rest) == Got((), rest)
    decreases item, |vs| + 2
  {
    CountThen(|vs|, ItemsData(item, vs), rest);
    SkipManyAfterData(item, name, vs, rest);
  }

  lemma {:induction false} SkipMapData(item: Schema, name: seq<byte>, kvs: seq<(seq<byte>, Value)>, rest: seq<byte>)
    requires |kvs| < TWO64 && PairsHave(item, kvs)
    ensures Skip(ElementOf(Map(item), name), Encode(|kvs|) + PairsData(item, kvs) + rest) == Got((), rest)
    decreases item, |kvs| + 2
  {
    var e := ElementOf(Map(item), name);
    var b := Encode(|kvs|) + PairsData(item, kvs) + rest;
    CountThen(|kvs|, PairsData(item, kvs), rest);
    assert Skip(e, b) == SkipPairs(e.children[0], |kvs|, PairsData(item, kvs) + rest);
    SkipPairsAfterData(item, name, kvs, rest);
  }

  lemma {:induction false} SkipUnionData(alts: seq<Schema>, name: seq<byte>, i: nat, v: Value, rest: seq<byte>)
    requires i < |alts| && i < TWO64 && Has(alts[i], v)
    ensures Skip(ElementOf(Union(alts), name), Encode(i) + Data(alts[i], v) + rest) == Got((), rest)
    decreases alts, 1
  {
    CountThen(i, Data(alts[i], v), rest);
    ElementsOfAt(alts, name, i);
    SkipAfterData(alts[i], name, v, rest);
  }

  lemma CountThen(n: nat, d: seq<byte>, rest: seq<byte>)
    requires n < TWO64
    ensures Decode(Encode(n) + d + rest) == Got(n, d + rest)
  {
    Regroup(Encode(n), d, rest);
    DecodeAfterEncode(n, d + rest);
  }

  lemma {:induction false} ElementsOfAt(alts: seq<Schema>, name: seq<byte>, i: nat)
    requires i < |alts|
    ensures ElementsOf(alts, name)[i] == ElementOf(alts[i], name)
    decreases alts
  {
    if i > 0 {
      ElementsOfAt(alts[1..], name, i - 1);
    }
  }

  lemma {:induction false} SkipFieldsAfterData(fields: seq<Field>, vs: seq<Value>, rest: seq<byte>)
    requires FieldsHave(fields, vs)
    ensures SkipFields(ElementFieldsOf(fields), FieldsData(fields, vs) + rest) == Got((), rest)
    decreases fields, 0
  {
    if fields != [] {
      var d, ds := Data(fields[0].schema, vs[0]), FieldsData(fields[1..], vs[1..]);
      Regroup(d, ds, rest);
      SkipAfterData(fields[0].schema, fields[0].name, vs[0], ds + rest);
      SkipFieldsAfterData(fields[1..], vs[1..], rest);
      assert ElementFieldsOf(fields)[1..] == ElementFieldsOf(fields[1..]);
    } else {
      assert [] + rest == rest;
    }
  }

  lemma {:induction false} SkipManyAfterData(item: Schema, name: seq<byte>, vs: seq<Value>, rest: seq<byte>)
    requires ItemsHave(item, vs)
    ensures SkipMany(ElementOf(item, name), |vs|, ItemsData(item, vs) + rest) == Got((), rest)
    decreases item, |vs| + 1
  {
    if FixedSize(item) >= 0 {
      ItemsSizeIsSize(item, vs);
      DropPrefix(ItemsData(item, vs), rest);
    } else {
      SkipItemsAfterData(item, name, vs, rest);
    }
  }

  lemma {:induction false} SkipItemsAfterData(item: Schema, name: seq<byte>, vs: seq<Value>, rest: seq<byte>)
    requires ItemsHave(item, vs)
    ensures SkipItems(ElementOf(item, name), |vs|, ItemsData(item, vs) + rest) == Got((), rest)
    decreases item, |vs|
  {
    if vs != [] {
      var d, ds := Data(item, vs[0]), ItemsData(item, vs[1..]);
      Regroup(d, ds, rest);
      SkipAfterData(item, name, vs[0], ds + rest);
      SkipItemsAfterData(item, name, vs[1..], rest);
    } else {
      assert [] + rest == rest;
    }
  }

  lemma {:induction false} SkipPairsAfterData(item: Schema, name: seq<byte>, kvs: seq<(seq<byte>, Value)>,
                                              rest: seq<byte>)
    requires PairsHave(item, kvs)
    ensures SkipPairs(ElementOf(item, name), |kvs|, PairsData(item, kvs) + rest) == Got((), rest)
    decreases item, |kvs| + 1
  {
    if kvs == [] {
      assert [] + rest == rest;
    } else {
      var key, v, ds := kvs[0].0, kvs[0].1, PairsData(item, kvs[1..]);
      SkipOnePair(item, name, key, v, ds + rest);
      SkipPairsAfterData(item, name, kvs[1..], rest);
      assert PairsData(item, kvs) == Str(key) + Data(item, v) + ds;
      Regroup3(Str(key), Data(item, v), ds, rest);
    }
  }

  lemma {:induction false} SkipOnePair(item: Schema, name: seq<byte>, key: seq<byte>, v: Value, rest: seq<byte>)
    requires IsString(key) && Has(item, v)
    ensures SkipPair(ElementOf(item, name), Str(key) + (Data(item, v) + rest)) == Got((), rest)
    decreases item, 1
  {
    ReadStringAfterStr(key, Data(item, v) + rest);
    SkipAfterData(item, name, v, rest);
  }

  // ----- parsing an emitted schema rebuilds it

  lemma ParsePrim(p: Prim, name: seq<byte>, rest: seq<byte>)
    requires p.FixedInt? || p.FixedUInt? ==> p.size < 128
    ensures ParseType(EmitPrim(p) + rest, name) == Got(ElementOfPrim(p, name), rest)
  {
    var b := EmitPrim(p) + rest;
    RecordedPrefix(EmitPrim(p), rest);
    if p.FixedInt? || p.FixedUInt? {
      assert Decode(b) == Got(PrimCode(p), [p.size] + rest) by {
        Regroup([PrimCode(p)], [p.size], rest);
        DecodeAfterEncode(PrimCode(p), [p.size] + rest);
      }
      ReadOneByte(p.size, rest);
    } else {
      assert Decode(b) == Got(PrimCode(p), rest) by {
        assert EmitPrim(p) == Encode(PrimCode(p));
        DecodeAfterEncode(PrimCode(p), rest);
      }
    }
  }

  lemma RecordedPrefix(d: seq<byte>, rest: seq<byte>)
    ensures Recorded(d + rest, rest) == d
  {
  }

  /** The tree rebuilt is the schema's own, every element with exactly the bytes of its subtree; nothing more is
      read. */
  lemma {:induction false} ParseAfterEmit(s: Schema, name: seq<byte>, rest: seq<byte>)
    requires WellFormed(s)
    ensures ParseType(Emit(s) + rest, name) == Got(ElementOf(s, name), rest)
    decreases s, 0
  {
    RecordedPrefix(Emit(s), rest);
    match s {
      case Prim(p) => ParsePrim(p, name, rest);
      case Object(flags, fields) => ParseObject(flags, fields, name, rest);
      case Enum(base, items) => ParseEnum(base, items, name, rest);
      case Array(item) => ParseWrapped(18, item, name, rest);
      case Map(item) => ParseWrapped(20, item, name, rest);
      case FixedArray(size, item) => ParseFixedArray(size, item, name, rest);
      case Union(alts) => ParseUnion(alts, name, rest);
    }
  }

  lemma {:induction false} ParseFixedArray(size: nat, item: Schema, name: seq<byte>, rest: seq<byte>)
    requires WellFormed(FixedArray(size, item))
    ensures ParseType(Emit(FixedArray(size, item)) + rest, name) == Got(ElementOf(FixedArray(size, item), name), rest)
    decreases item, 1
  {
    Regroup3(Encode(19), Encode(size), Emit(item), rest);
    DecodeAfterEncode(19, Encode(size) + (Emit(item) + rest));
    DecodeAfterEncode(size, Emit(item) + rest);
    ParseAfterEmit(item, name, rest);
    RecordedPrefix(Emit(FixedArray(size, item)), rest);
  }

  lemma {:induction false} ParseUnion(alts: seq<Schema>, name: seq<byte>, rest: seq<byte>)
    requires AltsWellFormed(alts)
    ensures ParseType(Emit(Union(alts)) + rest, name) == Got(ElementOf(Union(alts), name), rest)
    decreases alts, 1
  {
    Regroup(Encode(21), EmitAlts(alts), rest);
    DecodeAfterEncode(21, EmitAlts(alts) + rest);
    ParseAltsAfterEmit(alts, name, rest);
    var parts := ParseParts(21, EmitAlts(alts) + rest, name);
    assert parts == Got(Leaf(21, name, -1, -1, []).(children := ElementsOf(alts, name)), rest);
    RecordedPrefix(Emit(Union(alts)), rest);
  }

  lemma {:induction false} ParseWrapped(kind: nat, item: Schema, name: seq<byte>, rest: seq<byte>)
    requires (kind == 18 || kind == 20) && WellFormed(item)
    ensures ParseType(Encode(kind) + Emit(item) + rest, name) ==
            Got(Leaf(kind, name, -1, -1, Encode(kind) + Emit(item)).(children := [ElementOf(item, name)]), rest)
    decreases item, 1
  {
    CountThen(kind, Emit(item), rest);
    ParseAfterEmit(item, name, rest);
    RecordedPrefix(Encode(kind) + Emit(item), rest);
  }

  lemma {:induction false} ParseObject(flags: nat, fields: seq<Field>, name: seq<byte>, rest: seq<byte>)
    requires WellFormed(Object(flags, fields))
    ensures ParseType(Emit(Object(flags, fields)) + rest, name) == Got(ElementOf(Object(flags, fields), name), rest)
    decreases fields, 2
  {
    var d := Emit(Object(flags, fields));
    Regroup3(Encode(16), Encode(flags), EmitFields(fields), rest);
    DecodeAfterEncode(16, Encode(flags) + (EmitFields(fields) + rest));
    DecodeAfterEncode(flags, EmitFields(fields) + rest);
    ParseFieldsAfterEmit(fields, rest);
    SizesAgree(fields);
    RecordedPrefix(d, rest);
  }

  lemma {:induction false} SizesAgree(fields: seq<Field>)
    ensures ElementFieldsSize(ElementFieldsOf(fields)) == FieldsSize(fields)
    decreases fields
  {
    if fields != [] {
      SizesAgree(fields[1..]);
      assert ElementFieldsOf(fields)[1..] == ElementFieldsOf(fields[1..]);
    }
  }

  lemma {:induction false} ParseFieldsAfterEmit(fields: seq<Field>, rest: seq<byte>)
    requires FieldsWellFormed(fields)
    ensures ParseFields(EmitFields(fields) + rest) == Got(ElementFieldsOf(fields), rest)
    decreases fields, 1
  {
    if fields == [] {
      ParseFinalField(rest);
    } else {
      Regroup(EmitField(fields[0]), EmitFields(fields[1..]), rest);
      ParseFieldAfterEmit(fields[0], EmitFields(fields[1..]) + rest);
      ParseFieldsAfterEmit(fields[1..], rest);
    }
  }

  lemma ParseFinalField(rest: seq<byte>)
    ensures ParseFields(FINAL_FIELD + rest) == Got([], rest)
  {
    var b := FINAL_FIELD + rest;
    assert Decode(b) == Got(0, b[1..]);
    assert b[1..][1..] == b[2..] && b[2..][1..] == b[3..] && b[3..][1..] == b[4..] && b[4..][1..] == rest;
    assert ReadString(b[1..]) == Got([], b[2..]);
    assert Decode(b[2..]) == Got(0, b[3..]);
    assert ParseFieldHead(b) == Got((0, [], []), b[3..]);
    assert ParseType(b[3..], []) == Got(Leaf(0, [], -1, -1, Recorded(b[3..], b[4..])), b[4..]);
    assert b[4..][..1] == [0] && ReadLE(b[4..], 1) == Got(0, rest);
  }

  function EmitHead(f: Field): seq<byte> {
    Encode(f.flags) + Str(f.name) + Encode(|f.aliases|) + EmitStrings(f.aliases)
  }

  lemma ParseHeadAfterEmit(f: Field, rest: seq<byte>)
    requires FieldsWellFormed([f])
    ensures ParseFieldHead(EmitHead(f) + rest) == Got((f.flags, f.name, f.aliases), rest)
  {
    var r3 := EmitStrings(f.aliases) + rest;
    var r2 := Encode(|f.aliases|) + r3;
    var r1 := Str(f.name) + r2;
    Regroup4(Encode(f.flags), Str(f.name), Encode(|f.aliases|), EmitStrings(f.aliases), rest);
    DecodeAfterEncode(f.flags, r1);
    ReadStringAfterStr(f.name, r2);
    DecodeAfterEncode(|f.aliases|, r3);
    ParseStringsAfterEmit(f.aliases, rest);
  }

  lemma {:induction false} ParseFieldAfterEmit(f: Field, rest: seq<byte>)
    requires FieldsWellFormed([f])
    ensures ParseField(EmitField(f) + rest) ==
            Got(ElementField(f.flags, f.name, f.aliases, ElementOf(f.schema, f.name),
                             if f.default.Some? then Data(f.schema, f.default.value) else []), rest)
    decreases f, 1
  {
    var r2 := EmitDefault(f) + rest;
    var r1 := Emit(f.schema) + r2;
    Regroup3(EmitHead(f), Emit(f.schema), EmitDefault(f), rest);
    ParseHeadAfterEmit(f, r1);
    ParseAfterEmit(f.schema, f.name, r2);
    ParseDefaultAfterEmit(f, rest);
  }

  lemma ParseDefaultAfterEmit(f: Field, rest: seq<byte>)
    requires f.default.Some? ==> Has(f.schema, f.default.value)
    ensures ParseDefault(ElementOf(f.schema, f.name), EmitDefault(f) + rest) ==
            Got(if f.default.Some? then Data(f.schema, f.default.value) else [], rest)
  {
    match f.default {
      case None => ReadOneByte(0, rest);
      case Some(v) =>
        var d := Data(f.schema, v);
        Regroup([1], d, rest);
        ReadOneByte(1, d + rest);
        SkipAfterData(f.schema, f.name, v, rest);
        RecordedPrefix(d, rest);
    }
  }

  lemma ReadOneByte(n: byte, rest: seq<byte>)
    ensures ReadLE([n] + rest, 1) == Got(n, rest)
  {
    assert ([n] + rest)[..1] == [n] && ([n] + rest)[1..] == rest;
    assert FromLE([n]) == n;
  }

  lemma Regroup(a: seq<byte>, b: seq<byte>, rest: seq<byte>)
    ensures a + b + rest == a + (b + rest)
  {
  }

  lemma Regroup3(a: seq<byte>, b: seq<byte>, c: seq<byte>, rest: seq<byte>)
    ensures a + b + c + rest == a + (b + (c + rest))
  {
  }

  lemma {:induction false} ParseStringsAfterEmit(ss: seq<seq<byte>>, rest: seq<byte>)
    requires forall t :: t in ss ==> IsString(t)
    ensures ParseStrings(|ss|, EmitStrings(ss) + rest) == Got(ss, rest)
  {
    if ss != [] {
      Regroup(Str(ss[0]), EmitStrings(ss[1..]), rest);
      ReadStringAfterStr(ss[0], EmitStrings(ss[1..]) + rest);
      ParseStringsAfterEmit(ss[1..], rest);
      assert ss == [ss[0]] + ss[1..];
    } else {
      assert [] + rest == rest;
    }
  }

  lemma Regroup4(a: seq<byte>, b: seq<byte>, c: seq<byte>, d: seq<byte>, rest: seq<byte>)
    ensures a + b + c + d + rest == a + (b + (c + (d + rest)))
  {
  }

  lemma {:induction false} ParseEnum(base: Prim, items: seq<(nat, seq<byte>)>, name: seq<byte>, rest: seq<byte>)
    requires WellFormed(Enum(base, items))
    ensures ParseType(Emit(Enum(base, items)) + rest, name) == Got(ElementOf(Enum(base, items), name), rest)
  {
    var d := Emit(Enum(base, items));
    var r3 := EmitItems(base, items) + rest;
    var r2 := Encode(|items|) + r3;
    var r1 := EmitPrim(base) + r2;
    assert Decode(d + rest) == Got(17, r1) by {
      Regroup4(Encode(17), EmitPrim(base), Encode(|items|), EmitItems(base, items), rest);
      DecodeAfterEncode(17, r1);
    }
    EnumPartsAfterEmit(base, items, name, rest, r1);
    assert ParseParts(17, r1, name).Got? && ParseParts(17, r1, name).rest == rest;
    RecordedPrefix(d, rest);
  }

  lemma EnumPartsAfterEmit(base: Prim, items: seq<(nat, seq<byte>)>, name: seq<byte>, rest: seq<byte>, r1: seq<byte>)
    requires WellFormed(Enum(base, items)) && r1 == EmitPrim(base) + (Encode(|items|) + (EmitItems(base, items) + rest))
    ensures ParseEnumParts(r1, name) == Got((ElementOfPrim(base, name), ItemMap(items, map[])), rest)
  {
    var r3 := EmitItems(base, items) + rest;
    ParsePrim(base, name, Encode(|items|) + r3);
    DecodeAfterEncode(|items|, r3);
    ParseItemsAfterEmit(base, items, name, map[], rest);
  }

  lemma ReadUIntLikeAfterData(base: Prim, n: nat, name: seq<byte>, rest: seq<byte>)
    requires (base == Varuint || (base.FixedUInt? && base.size in {1, 2, 4, 8})) && PrimHas(base, Number(n))
    ensures ReadUIntLike(ElementOfPrim(base, name), PrimData(base, Number(n)) + rest) == Got(n, rest)
  {
    if base == Varuint {
      DecodeAfterEncode(n, rest);
    } else {
      ReadLEAfterLE(n, base.size, rest);
    }
  }

  lemma {:induction false} ParseItemsAfterEmit(base: Prim, items: seq<(nat, seq<byte>)>, name: seq<byte>,
                                               sofar: map<nat, seq<byte>>, rest: seq<byte>)
    requires base == Varuint || (base.FixedUInt? && base.size in {1, 2, 4, 8})
    requires forall i :: 0 <= i < |items| ==> PrimHas(base, Number(items[i].0)) && IsString(items[i].1)
    ensures ParseItems(ElementOfPrim(base, name), |items|, EmitItems(base, items) + rest, sofar) ==
            Got(ItemMap(items, sofar), rest)
    decreases items
  {
    if items != [] {
      var r2 := EmitItems(base, items[1..]) + rest;
      var r1 := Str(items[0].1) + r2;
      Regroup3(PrimData(base, Number(items[0].0)), Str(items[0].1), EmitItems(base, items[1..]), rest);
      ReadUIntLikeAfterData(base, items[0].0, name, r1);
      ReadStringAfterStr(items[0].1, r2);
      ParseItemsAfterEmit(base, items[1..], name, Insert(sofar, items[0].0, items[0].1), rest);
    } else {
      assert [] + rest == rest;
    }
  }

  lemma {:induction false} ParseAltsAfterEmit(alts: seq<Schema>, name: seq<byte>, rest: seq<byte>)
    requires AltsWellFormed(alts)
    ensures ParseAlts(EmitAlts(alts) + rest, name) == Got(ElementsOf(alts, name), rest)
    decreases alts, 0
  {
    if alts == [] {
      DecodeAfterEncode(0, rest);
      assert ParseParts(0, rest, name) == Got(Leaf(0, name, -1, -1, []), rest);
      assert ParseType(Encode(0) + rest, name).Got?;
    } else {
      Regroup(Emit(alts[0]), EmitAlts(alts[1..]), rest);
      ParseAfterEmit(alts[0], name, EmitAlts(alts[1..]) + rest);
      ParseAltsAfterEmit(alts[1..], name, rest);
    }
  }
}
