/** The self-describing format: schemas, the values of a schema, their bytes, and the bytes of a schema itself. */
module BinaryFormat {
  import opened Bytes
  import opened Varuint

  /** The types with no parts. */
  datatype Prim =
    | Null | Boolean | FixedInt(size: nat) | FixedUInt(size: nat) | Varint | Varuint
    | Float32 | Float64 | Bytes | String | Timestamp | Duration

  datatype Schema =
    | Prim(prim: Prim)
    | Object(flags: nat, fields: seq<Field>)
    | Enum(base: Prim, items: seq<(nat, seq<byte>)>)
    | Array(item: Schema)
    | FixedArray(size: nat, item: Schema)
    | Map(item: Schema)
    | Union(alts: seq<Schema>)

  datatype Field = Field(flags: nat, name: seq<byte>, aliases: seq<seq<byte>>, schema: Schema, default: Option<Value>)

  /** A value of some schema.  Booleans, fixed integers, floats, times and varuints are the unsigned number their bits
      spell; objects, arrays and fixed arrays are sequences of parts. */
  datatype Value =
    | Nothing
    | Number(n: nat)
    | Signed(i: int)
    | Text(text: seq<byte>)
    | Parts(parts: seq<Value>)
    | Pairs(pairs: seq<(seq<byte>, Value)>)
    | Choice(index: nat, chosen: Value)

  const MAX_STRING: nat := 0x100_0000  // Format::kMaxStringSize

  // ----- widths

  /** The bytes a part-free type always takes, or -1. */
  function PrimSize(p: Prim): int {
    match p
    case Null => 0
    case Boolean => 1
    case FixedInt(size) => size
    case FixedUInt(size) => size
    case Float32 => 4
    case Float64 => 8
    case Timestamp => 8
    case Duration => 8
    case _ => -1
  }

  /** Element::maybe_fixed_size: an object is fixed when all its fields are; arrays and unions never count as fixed. */
  function FixedSize(s: Schema): (n: int)
    ensures n >= -1
  {
    match s
    case Prim(p) => PrimSize(p)
    case Object(_, fields) => FieldsSize(fields)
    case Enum(base, _) => PrimSize(base)
    case _ => -1
  }

  function FieldsSize(fields: seq<Field>): (n: int)
    ensures n >= -1
  {
    if fields == [] then 0
    else
      var first, others := FixedSize(fields[0].schema), FieldsSize(fields[1..]);
      if first < 0 || others < 0 then -1 else first + others
  }

  // ----- values and their bytes

  predicate IsString(b: seq<byte>) { |b| <= MAX_STRING }

  predicate PrimHas(p: Prim, v: Value) {
    match p
    case Null => v == Nothing
    case Boolean => v == Number(0) || v == Number(1)
    case Varint => v.Signed? && -0x8000_0000_0000_0000 <= v.i < 0x8000_0000_0000_0000
    case Varuint => v.Number? && v.n < TWO64
    case Bytes => v.Text? && |v.text| < TWO64
    case String => v.Text? && IsString(v.text)
    case _ => v.Number? && PrimSize(p) >= 0 && v.n < Pow256(PrimSize(p))
  }

  predicate Has(s: Schema, v: Value)
    decreases s, 0
  {
    match s
    case Prim(p) => PrimHas(p, v)
    case Object(_, fields) => v.Parts? && FieldsHave(fields, v.parts)
    case Enum(base, _) => PrimHas(base, v)
    case Array(item) => v.Parts? && |v.parts| < TWO64 && ItemsHave(item, v.parts)
    case FixedArray(size, item) => v.Parts? && |v.parts| == size && ItemsHave(item, v.parts)
    case Map(item) => v.Pairs? && |v.pairs| < TWO64 && PairsHave(item, v.pairs)
    case Union(alts) => v.Choice? && v.index < TWO64 && v.index < |alts| && Has(alts[v.index], v.chosen)
  }

  predicate FieldsHave(fields: seq<Field>, vs: seq<Value>)
    ensures FieldsHave(fields, vs) ==> |vs| == |fields|
    decreases fields, 0
  {
    if fields == [] then vs == []
    else vs != [] && Has(fields[0].schema, vs[0]) && FieldsHave(fields[1..], vs[1..])
  }

  predicate ItemsHave(item: Schema, vs: seq<Value>)
    decreases item, |vs|
  {
    vs != [] ==> Has(item, vs[0]) && ItemsHave(item, vs[1..])
  }

  predicate PairsHave(item: Schema, kvs: seq<(seq<byte>, Value)>)
    decreases item, |kvs|
  {
    kvs != [] ==> IsString(kvs[0].0) && Has(item, kvs[0].1) && PairsHave(item, kvs[1..])
  }

  /** A length and that many bytes. */
  function Str(b: seq<byte>): seq<byte> { Encode(|b|) + b }

  function PrimData(p: Prim, v: Value): seq<byte> {
    match (p, v)
    case (Varint, Signed(i)) =>
      if -0x8000_0000_0000_0000 <= i < 0x8000_0000_0000_0000 then Encode(ZigZag(i)) else []
    case (Varuint, Number(n)) => Encode(n)
    case (Bytes, Text(b)) => Str(b)
    case (String, Text(b)) => Str(b)
    case (_, Number(n)) => if PrimSize(p) >= 0 then LE(n, PrimSize(p)) else []
    case (_, _) => []
  }

  /** The bytes of value `v` under schema `s`. */
  function Data(s: Schema, v: Value): seq<byte>
    decreases s, 0
  {
    match s
    case Prim(p) => PrimData(p, v)
    case Object(_, fields) => if v.Parts? then FieldsData(fields, v.parts) else []
    case Enum(base, _) => PrimData(base, v)
    case Array(item) => if v.Parts? then Encode(|v.parts|) + ItemsData(item, v.parts) else []
    case FixedArray(_, item) => if v.Parts? then ItemsData(item, v.parts) else []
    case Map(item) => if v.Pairs? then Encode(|v.pairs|) + PairsData(item, v.pairs) else []
    case Union(alts) => if v.Choice? && v.index < |alts| then Encode(v.index) + Data(alts[v.index], v.chosen) else []
  }

  function FieldsData(fields: seq<Field>, vs: seq<Value>): seq<byte>
    decreases fields, 0
  {
    if fields == [] || vs == [] then [] else Data(fields[0].schema, vs[0]) + FieldsData(fields[1..], vs[1..])
  }

  function ItemsData(item: Schema, vs: seq<Value>): seq<byte>
    decreases item, |vs|
  {
    if vs == [] then [] else Data(item, vs[0]) + ItemsData(item, vs[1..])
  }

  function PairsData(item: Schema, kvs: seq<(seq<byte>, Value)>): seq<byte>
    decreases item, |kvs|
  {
    if kvs == [] then [] else Str(kvs[0].0) + Data(item, kvs[0].1) + PairsData(item, kvs[1..])
  }

  /** The size a schema promises is the size its data has. */
  lemma {:induction false} FixedSizeIsSize(s: Schema, v: Value)
    requires Has(s, v) && FixedSize(s) >= 0
    ensures |Data(s, v)| == FixedSize(s)
    decreases s, 0
  {
    if s.Object? {
      FieldsSizeIsSize(s.fields, v.parts);
    }
  }

  lemma {:induction false} FieldsSizeIsSize(fields: seq<Field>, vs: seq<Value>)
    requires FieldsHave(fields, vs) && FieldsSize(fields) >= 0
    ensures |FieldsData(fields, vs)| == FieldsSize(fields)
    decreases fields, 0
  {
    if fields != [] {
      FixedSizeIsSize(fields[0].schema, vs[0]);
      FieldsSizeIsSize(fields[1..], vs[1..]);
    }
  }

  lemma {:induction false} ItemsSizeIsSize(item: Schema, vs: seq<Value>)
    requires ItemsHave(item, vs) && FixedSize(item) >= 0
    ensures |ItemsData(item, vs)| == |vs| * FixedSize(item)
  {
    if vs != [] {
      FixedSizeIsSize(item, vs[0]);
      ItemsSizeIsSize(item, vs[1..]);
      assert |vs| * FixedSize(item) == FixedSize(item) + (|vs| - 1) * FixedSize(item);
    }
  }

  // ----- schemas as bytes

  function Code(s: Schema): nat {
    match s
    case Prim(p) => PrimCode(p)
    case Object(_, _) => 16
    case Enum(_, _) => 17
    case Array(_) => 18
    case FixedArray(_, _) => 19
    case Map(_) => 20
    case Union(_) => 21
  }

  function PrimCode(p: Prim): nat {
    match p
    case Null => 1
    case Boolean => 2
    case FixedInt(_) => 3
    case FixedUInt(_) => 4
    case Varint => 5
    case Varuint => 6
    case Float32 => 7
    case Float64 => 8
    case Bytes => 9
    case String => 10
    case Timestamp => 22
    case Duration => 23
  }

  /** What the format can express: sizes in a byte, counts in 64 bits, strings the reader accepts, defaults that are
      values, and enumerations over a type whose values the reader can read. */
  predicate WellFormed(s: Schema)
    decreases s, 0
  {
    match s
    case Prim(p) => (p.FixedInt? || p.FixedUInt? ==> p.size < 128)
    case Object(flags, fields) => flags < TWO64 && FieldsWellFormed(fields)
    case Enum(base, items) =>
      && (base == Varuint || (base.FixedUInt? && base.size in {1, 2, 4, 8}))
      && |items| < TWO64
      && forall i :: 0 <= i < |items| ==> PrimHas(base, Number(items[i].0)) && IsString(items[i].1)
    case Array(item) => WellFormed(item)
    case FixedArray(size, item) => size < TWO64 && WellFormed(item)
    case Map(item) => WellFormed(item)
    case Union(alts) => AltsWellFormed(alts)
  }

  predicate FieldsWellFormed(fields: seq<Field>)
    decreases fields, 0
  {
    fields != [] ==>
      && fields[0].flags < TWO64 && IsString(fields[0].name)
      && |fields[0].aliases| < TWO64 && (forall a :: a in fields[0].aliases ==> IsString(a))
      && WellFormed(fields[0].schema)
      && (fields[0].default.Some? ==> Has(fields[0].schema, fields[0].default.value))
      && FieldsWellFormed(fields[1..])
  }

  predicate AltsWellFormed(alts: seq<Schema>)
    decreases alts, 0
  {
    alts != [] ==> WellFormed(alts[0]) && AltsWellFormed(alts[1..])
  }

  /** The terminating record of an object: no flags, no name, no aliases, the final type, no default. */
  const FINAL_FIELD: seq<byte> := [0, 0, 0, 0, 0]

  function EmitPrim(p: Prim): seq<byte> {
    Encode(PrimCode(p)) + (if p.FixedInt? || p.FixedUInt? then Encode(p.size) else [])
  }

  /** The bytes of the schema itself. */
  function Emit(s: Schema): seq<byte>
    decreases s, 0
  {
    match s
    case Prim(p) => EmitPrim(p)
    case Object(flags, fields) => Encode(16) + Encode(flags) + EmitFields(fields)
    case Enum(base, items) => Encode(17) + EmitPrim(base) + Encode(|items|) + EmitItems(base, items)
    case Array(item) => Encode(18) + Emit(item)
    case FixedArray(size, item) => Encode(19) + Encode(size) + Emit(item)
    case Map(item) => Encode(20) + Emit(item)
    case Union(alts) => Encode(21) + EmitAlts(alts)
  }

  function EmitField(f: Field): seq<byte>
    decreases f, 0
  {
    Encode(f.flags) + Str(f.name) + Encode(|f.aliases|) + EmitStrings(f.aliases) + Emit(f.schema) + EmitDefault(f)
  }

  function EmitDefault(f: Field): seq<byte> {
    match f.default
    case None => [0]
    case Some(v) => [1] + Data(f.schema, v)
  }

  function EmitFields(fields: seq<Field>): seq<byte>
    decreases fields, 0
  {
    if fields == [] then FINAL_FIELD else EmitField(fields[0]) + EmitFields(fields[1..])
  }

  function EmitStrings(ss: seq<seq<byte>>): seq<byte> {
    if ss == [] then [] else Str(ss[0]) + EmitStrings(ss[1..])
  }

  function EmitItems(base: Prim, items: seq<(nat, seq<byte>)>): seq<byte> {
    if items == [] then [] else PrimData(base, Number(items[0].0)) + Str(items[0].1) + EmitItems(base, items[1..])
  }

  function EmitAlts(alts: seq<Schema>): seq<byte>
    decreases alts, 0
  {
    if alts == [] then Encode(0) else Emit(alts[0]) + EmitAlts(alts[1..])
  }
}
