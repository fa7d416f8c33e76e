/** Writing the schema of a C++ type, as its visitor meets the parts. */
module SchemaArchive {
  import opened Bytes
  import opened Streams
  import opened Varuint
  import opened BinaryFormat
  import opened Archive

  method WriteString(t: seq<byte>, ostr: OStream)
    modifies ostr
    ensures ostr.data == old(ostr.data) + Str(t)
  {
    ghost var was := ostr.data;
    WriteVaruint(ostr, |t|);
    ostr.Write(t);
    Assoc(was, Encode(|t|), t);
  }

  // ----- with defaults or without

  /** The schema as it is written: with the defaults of its fields, or with none. */
  function Shown(s: Schema, emitDefault: bool): Schema
    decreases s, 0
  {
    match s
    case Object(flags, fields) => Object(flags, ShownFields(fields, emitDefault))
    case Array(item) => Array(Shown(item, emitDefault))
    case FixedArray(size, item) => FixedArray(size, Shown(item, emitDefault))
    case Union(alts) => Union(ShownAll(alts, emitDefault))
    case _ => s
  }

  function ShownField(f: Field, emitDefault: bool): Field
    decreases f, 0
  {
    f.(schema := Shown(f.schema, emitDefault), default := if emitDefault then f.default else None)
  }

  function ShownFields(fields: seq<Field>, emitDefault: bool): (r: seq<Field>)
    ensures |r| == |fields|
    decreases fields, 0
  {
    if fields == [] then [] else [ShownField(fields[0], emitDefault)] + ShownFields(fields[1..], emitDefault)
  }

  function ShownAll(alts: seq<Schema>, emitDefault: bool): (r: seq<Schema>)
    ensures |r| == |alts|
    decreases alts, 0
  {
    if alts == [] then [] else [Shown(alts[0], emitDefault)] + ShownAll(alts[1..], emitDefault)
  }

  /** With its defaults it is the schema itself. */
  lemma {:induction false} ShownIsItself(s: Schema)
    ensures Shown(s, true) == s
    decreases s, 0
  {
    match s {
      case Object(_, fields) => ShownFieldsAreThemselves(fields);
      case Array(item) => ShownIsItself(item);
      case FixedArray(_, item) => ShownIsItself(item);
      case Union(alts) => ShownAllAreThemselves(alts);
      case _ =>
    }
  }

  lemma {:induction false} ShownFieldsAreThemselves(fields: seq<Field>)
    ensures ShownFields(fields, true) == fields
    decreases fields, 0
  {
    if fields != [] {
      ShownIsItself(fields[0].schema);
      ShownFieldsAreThemselves(fields[1..]);
      assert [fields[0]] + fields[1..] == fields;
    }
  }

  lemma {:induction false} ShownAllAreThemselves(alts: seq<Schema>)
    ensures ShownAll(alts, true) == alts
    decreases alts, 0
  {
    if alts != [] {
      ShownIsItself(alts[0]);
      ShownAllAreThemselves(alts[1..]);
      assert [alts[0]] + alts[1..] == alts;
    }
  }

  /** Either way it describes the same values by the same bytes. */
  lemma {:induction false} ShownHasSameData(s: Schema, emitDefault: bool, v: Value)
    ensures Has(Shown(s, emitDefault), v) <==> Has(s, v)
    ensures Data(Shown(s, emitDefault), v) == Data(s, v)
    decreases s, 0, v
  {
    match s {
      case Object(_, fields) =>
        if v.Parts? {
          ShownFieldsHaveSameData(fields, emitDefault, v.parts);
        }
      case Array(item) =>
        if v.Parts? {
          ShownItemsHaveSameData(item, emitDefault, v.parts);
        }
      case FixedArray(_, item) =>
        if v.Parts? {
          ShownItemsHaveSameData(item, emitDefault, v.parts);
        }
      case Union(alts) =>
        if v.Choice? && v.index < |alts| {
          ShownAllAt(alts, emitDefault, v.index);
          ShownHasSameData(alts[v.index], emitDefault, v.chosen);
        }
      case _ =>
    }
  }

  lemma {:induction false} ShownAllAt(alts: seq<Schema>, emitDefault: bool, i: nat)
    requires i < |alts|
    ensures ShownAll(alts, emitDefault)[i] == Shown(alts[i], emitDefault)
    decreases i
  {
    if i > 0 {
      ShownAllAt(alts[1..], emitDefault, i - 1);
    }
  }

  lemma {:induction false} ShownFieldsHaveSameData(fields: seq<Field>, emitDefault: bool, vs: seq<Value>)
    ensures FieldsHave(ShownFields(fields, emitDefault), vs) <==> FieldsHave(fields, vs)
    ensures FieldsData(ShownFields(fields, emitDefault), vs) == FieldsData(fields, vs)
    decreases fields, 0, vs
  {
    if fields != [] && vs != [] {
      var shown := ShownFields(fields, emitDefault);
      assert shown[0] == ShownField(fields[0], emitDefault) && shown[1..] == ShownFields(fields[1..], emitDefault);
      ShownHasSameData(fields[0].schema, emitDefault, vs[0]);
      ShownFieldsHaveSameData(fields[1..], emitDefault, vs[1..]);
    }
  }

  lemma {:induction false} ShownItemsHaveSameData(item: Schema, emitDefault: bool, vs: seq<Value>)
    ensures ItemsHave(Shown(item, emitDefault), vs) <==> ItemsHave(item, vs)
    ensures ItemsData(Shown(item, emitDefault), vs) == ItemsData(item, vs)
    decreases item, 1, vs
  {
    if vs != [] {
      ShownHasSameData(item, emitDefault, vs[0]);
      ShownItemsHaveSameData(item, emitDefault, vs[1..]);
    }
  }

  // ----- the archive as it runs

  /** BinarySchemaArchive: the bytes are those of Emit. */
  method WriteSchema(s: Schema, emitDefault: bool, ostr: OStream)
    requires Visited(s)
    modifies ostr
    ensures ostr.data == old(ostr.data) + Emit(Shown(s, emitDefault))
    decreases s, 0
  {
    ghost var was := ostr.data;
    match s {
      case Prim(p) => WriteType(p, ostr);
      case Object(_, fields) =>
        WriteVaruint(ostr, 16);
        WriteVaruint(ostr, 0);
        WriteFields(fields, emitDefault, ostr);
        Parts3(was, Encode(16), Encode(0), EmitFields(ShownFields(fields, emitDefault)));
      case Enum(_, items) => WriteEnum(items, ostr);
      case Array(item) =>
        WriteVaruint(ostr, 18);
        WriteSchema(item, emitDefault, ostr);
        Assoc(was, Encode(18), Emit(Shown(item, emitDefault)));
      case FixedArray(size, item) =>
        WriteVaruint(ostr, 19);
        WriteVaruint(ostr, size);
        WriteSchema(item, emitDefault, ostr);
        Parts3(was, Encode(19), Encode(size), Emit(Shown(item, emitDefault)));
      case Union(alts) => WriteOptional(alts, emitDefault, ostr);
    }
  }

  lemma Parts3(a: seq<byte>, b: seq<byte>, c: seq<byte>, d: seq<byte>)
    ensures a + b + c + d == a + (b + c + d)
  {
    Assoc(a, b, c);
    Assoc(a, b + c, d);
  }

  /** A type that is no more than its number, and its size when it is a fixed integer. */
  method WriteType(p: Prim, ostr: OStream)
    modifies ostr
    ensures ostr.data == old(ostr.data) + EmitPrim(p)
  {
    ghost var was := ostr.data;
    WriteVaruint(ostr, PrimCode(p));
    if p.FixedInt? || p.FixedUInt? {
      WriteVaruint(ostr, p.size);
      Assoc(was, Encode(PrimCode(p)), Encode(p.size));
    } else {
      assert Encode(PrimCode(p)) + [] == Encode(PrimCode(p));
    }
  }

  /** Null or the type itself, then the final type. */
  method WriteOptional(alts: seq<Schema>, emitDefault: bool, ostr: OStream)
    requires Visited(Union(alts))
    modifies ostr
    ensures ostr.data == old(ostr.data) + Emit(Shown(Union(alts), emitDefault))
    decreases alts, 0
  {
    ghost var was := ostr.data;
    WriteVaruint(ostr, 21);
    WriteVaruint(ostr, PrimCode(Null));
    WriteSchema(alts[1], emitDefault, ostr);
    WriteVaruint(ostr, 0);
    OptionalPieces(alts, emitDefault, was);
  }

  lemma OptionalPieces(alts: seq<Schema>, emitDefault: bool, was: seq<byte>)
    requires Visited(Union(alts))
    ensures was + Encode(21) + Encode(PrimCode(Null)) + Emit(Shown(alts[1], emitDefault)) + Encode(0)
         == was + Emit(Shown(Union(alts), emitDefault))
  {
    var a, b, c := Encode(PrimCode(Null)), Emit(Shown(alts[1], emitDefault)), Encode(0);
    var shown := ShownAll(alts, emitDefault);
    ShownAllAt(alts, emitDefault, 0);
    ShownAllAt(alts, emitDefault, 1);
    assert shown[1..][1..] == [];
    assert EmitAlts(shown[1..][1..]) == c;
    assert EmitAlts(shown[1..]) == b + c;
    assert Emit(shown[0]) == a by { assert a + [] == a; }
    assert EmitAlts(shown) == a + (b + c);
    Assoc(was + Encode(21) + a, b, c);
    Assoc(was + Encode(21), a, b + c);
    Assoc(was, Encode(21), a + (b + c));
  }

  method WriteEnum(items: seq<(nat, seq<byte>)>, ostr: OStream)
    modifies ostr
    ensures ostr.data == old(ostr.data) + Emit(Enum(Varuint, items))
  {
    ghost var was := ostr.data;
    WriteVaruint(ostr, 17);
    WriteType(Prim.Varuint, ostr);
    WriteVaruint(ostr, |items|);
    ghost var head := Encode(17) + EmitPrim(Prim.Varuint) + Encode(|items|);
    Parts3(was, Encode(17), EmitPrim(Prim.Varuint), Encode(|items|));
    for i := 0 to |items|
      invariant ostr.data + EmitItems(Prim.Varuint, items[i..]) == was + head + EmitItems(Prim.Varuint, items)
    {
      ghost var before, later := ostr.data, EmitItems(Prim.Varuint, items[i + 1..]);
      WriteVaruint(ostr, items[i].0);
      WriteString(items[i].1, ostr);
      assert items[i..][1..] == items[i + 1..];
      Parts3(before, Encode(items[i].0), Str(items[i].1), later);
    }
    Assoc(was, head, EmitItems(Prim.Varuint, items));
  }

  /** Every field, then the final record. */
  method WriteFields(fields: seq<Field>, emitDefault: bool, ostr: OStream)
    requires FieldsVisited(fields)
    modifies ostr
    ensures ostr.data == old(ostr.data) + EmitFields(ShownFields(fields, emitDefault))
    decreases fields, 1
  {
    ghost var was := ostr.data;
    if fields == [] {
      Finish(ostr);
    } else {
      WriteField(fields[0], emitDefault, ostr);
      WriteFields(fields[1..], emitDefault, ostr);
      ghost var shown := ShownFields(fields, emitDefault);
      assert shown[0] == ShownField(fields[0], emitDefault) && shown[1..] == ShownFields(fields[1..], emitDefault);
      Assoc(was, EmitField(shown[0]), EmitFields(shown[1..]));
    }
  }

  method Finish(ostr: OStream)
    modifies ostr
    ensures ostr.data == old(ostr.data) + FINAL_FIELD
  {
    WriteVaruint(ostr, 0);
    WriteString([], ostr);
    WriteVaruint(ostr, 0);
    WriteVaruint(ostr, 0);
    WriteVaruint(ostr, 0);
    assert Str([]) == [0] by { assert Encode(0) + [] == Encode(0); }
  }

  /** Flags, name, aliases, the type, and the default with its data or none. */
  method WriteField(f: Field, emitDefault: bool, ostr: OStream)
    requires FieldsVisited([f])
    modifies ostr
    ensures ostr.data == old(ostr.data) + EmitField(ShownField(f, emitDefault))
    decreases f, 0
  {
    ghost var was := ostr.data;
    WriteVaruint(ostr, 0);
    WriteString(f.name, ostr);
    WriteVaruint(ostr, 0);
    ghost var head := Encode(f.flags) + Str(f.name) + Encode(|f.aliases|);
    ghost var shown := ShownField(f, emitDefault);
    Parts3(was, Encode(f.flags), Str(f.name), Encode(|f.aliases|));
    assert ostr.data == was + head;
    WriteSchema(f.schema, emitDefault, ostr);
    ghost var before := ostr.data;
    WriteDefault(f, emitDefault, ostr);
    assert before == was + head + Emit(shown.schema);
    assert ostr.data == before + EmitDefault(shown);
    Parts3(was, head, Emit(shown.schema), EmitDefault(shown));
    assert EmitStrings(f.aliases) == [] && head + [] == head;
  }

  method WriteDefault(f: Field, emitDefault: bool, ostr: OStream)
    requires FieldsVisited([f])
    modifies ostr
    ensures ostr.data == old(ostr.data) + EmitDefault(ShownField(f, emitDefault))
  {
    ghost var was := ostr.data;
    if emitDefault {
      WriteVaruint(ostr, 1);
      Archive.Write(f.schema, f.default.value, ostr);
      ShownIsItself(f.schema);
      Assoc(was, [1], Data(f.schema, f.default.value));
    } else {
      WriteVaruint(ostr, 0);
    }
  }
}
