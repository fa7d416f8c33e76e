/** On any bytes at all, what an archive reads is what the parser's Ignore skips. */
module ArchiveIgnore {
  import opened Bytes
  import opened Varuint
  import opened BinaryFormat
  import opened SchemaParser
  import opened Archive

  lemma DropOn(b: seq<byte>, m: nat, n: nat)
    requires m + n <= |b|
    ensures Drop(b, m) == b[m..] && Drop(b[m..], n) == Drop(b, m + n)
  {
  }

  /** Reading data of a fixed size takes that many bytes. */
  lemma {:induction false} ReadIsFixed(s: Schema, b: seq<byte>, t: Value)
    requires Visited(s) && Has(s, t) && ReadInto(s, b, t).Got? && FixedSize(s) >= 0
    ensures FixedSize(s) <= |b| && ReadInto(s, b, t).rest == Drop(b, FixedSize(s))
    decreases s, 0
  {
    if s.Object? {
      FieldsAreFixed(s.fields, b, t.parts);
    }
  }

  lemma {:induction false} FieldsAreFixed(fields: seq<Field>, b: seq<byte>, ts: seq<Value>)
    requires FieldsVisited(fields) && FieldsHave(fields, ts) && ReadFieldsInto(fields, b, ts).Got? && FieldsSize(fields) >= 0
    ensures FieldsSize(fields) <= |b| && ReadFieldsInto(fields, b, ts).rest == Drop(b, FieldsSize(fields))
    decreases fields, 0
  {
    if fields != [] {
      ReadIsFixed(fields[0].schema, b, ts[0]);
      var r1 := ReadInto(fields[0].schema, b, ts[0]).rest;
      FieldsAreFixed(fields[1..], r1, ts[1..]);
      DropOn(b, FixedSize(fields[0].schema), FieldsSize(fields[1..]));
    }
  }

  lemma {:induction false} ItemsAreFixed(item: Schema, b: seq<byte>, ts: seq<Value>, size: nat, total: nat)
    requires Visited(item) && ItemsHave(item, ts) && ReadItemsInto(item, b, ts).Got? && FixedSize(item) == size
    requires total == |ts| * size
    ensures total <= |b| && ReadItemsInto(item, b, ts).rest == Drop(b, total)
    decreases |ts|
  {
    if ts != [] {
      OneFewer(|ts|, size, total);
      ReadIsFixed(item, b, ts[0]);
      ItemsAreFixed(item, Drop(b, size), ts[1..], size, total - size);
      DropOn(b, size, total - size);
    }
  }

  lemma OneFewer(n: nat, size: nat, total: nat)
    requires n > 0 && total == n * size
    ensures total - size == (n - 1) * size >= 0
  {
  }

  /** Whatever the bytes, well formed or not, and whatever the object held: if a type can be read from them, then Ignore
      skips exactly the same bytes.  So what Ignore refuses, as an index that is out of range, cannot be read. */
  lemma {:induction false} ReadIsSkipped(s: Schema, name: seq<byte>, b: seq<byte>, t: Value)
    requires Visited(s) && Has(s, t) && ReadInto(s, b, t).Got?
    ensures Skip(ElementOf(s, name), b) == Got((), ReadInto(s, b, t).rest)
    decreases s, 0
  {
    if FixedSize(s) >= 0 {
      ReadIsFixed(s, b, t);
    } else {
      match s
      case Prim(p) => PrimIsSkipped(p, name, b);
      case Enum(base, items) => EnumIsSkipped(s, name, b);
      case Object(flags, fields) => FieldsAreSkipped(fields, b, t.parts);
      case Array(item) =>
        ArrayUnfolds(item, name, b, t);
        ResizedHave(item, t.parts, Decode(b).value);
        ManyAreSkipped(item, name, Decode(b).rest, Resized(item, t.parts, Decode(b).value));
      case FixedArray(size, item) => ManyAreSkipped(item, name, b, t.parts);
      case Union(alts) => OptionalIsSkipped(s, name, b, t);
    }
  }

  lemma ArrayUnfolds(item: Schema, name: seq<byte>, b: seq<byte>, t: Value)
    requires Visited(item) && Has(Array(item), t) && ReadInto(Array(item), b, t).Got?
    ensures Decode(b).Got? && ItemsHave(item, Resized(item, t.parts, Decode(b).value))
    ensures Skip(ElementOf(Array(item), name), b) == SkipMany(ElementOf(item, name), Decode(b).value, Decode(b).rest)
    ensures ReadItemsInto(item, Decode(b).rest, Resized(item, t.parts, Decode(b).value)).Got?
    ensures ReadItemsInto(item, Decode(b).rest, Resized(item, t.parts, Decode(b).value)).rest == ReadInto(Array(item), b, t).rest
  {
    ResizedHave(item, t.parts, Decode(b).value);
  }

  lemma PrimIsSkipped(p: Prim, name: seq<byte>, b: seq<byte>)
    requires Visited(Prim(p)) && PrimSize(p) < 0 && ReadPrim(p, b).Got?
    ensures Skip(ElementOf(Prim(p), name), b) == Got((), ReadPrim(p, b).rest)
  {
  }

  lemma EnumIsSkipped(s: Schema, name: seq<byte>, b: seq<byte>)
    requires s.Enum? && Visited(s) && Decode(b).Got?
    ensures Skip(ElementOf(s, name), b) == Got((), Decode(b).rest)
  {
    var e := ElementOf(s, name);
    assert e.children == [ElementOfPrim(s.base, name)];
    assert Skip(e.children[0], b) == Got((), Decode(b).rest);
  }

  lemma {:induction false} OptionalIsSkipped(s: Schema, name: seq<byte>, b: seq<byte>, t: Value)
    requires s.Union? && Visited(s) && Has(s, t) && ReadInto(s, b, t).Got?
    ensures Skip(ElementOf(s, name), b) == Got((), ReadInto(s, b, t).rest)
    decreases s.alts, 1
  {
    var alts := s.alts;
    var e := ElementOf(s, name);
    TwoElements(alts, name);
    FirstByte(b);
    var r1 := b[1..];
    if b[0] == 1 {
      InitialHas(alts[1]);
      ReadIsSkipped(alts[1], name, r1, Initial(alts[1]));
    }
  }

  lemma TwoElements(alts: seq<Schema>, name: seq<byte>)
    requires |alts| == 2
    ensures ElementsOf(alts, name) == [ElementOf(alts[0], name), ElementOf(alts[1], name)]
  {
    assert alts[1..][1..] == [];
  }

  /** A byte below 128 is a number of either kind. */
  lemma FirstByte(b: seq<byte>)
    requires b != []
    ensures ReadLE(b, 1) == Got(b[0], b[1..])
    ensures b[0] < 128 ==> Decode(b) == Got(b[0], b[1..])
  {
    assert FromLE(b[..1]) == b[0] + 256 * FromLE(b[..1][1..]);
  }

  lemma {:induction false} FieldsAreSkipped(fields: seq<Field>, b: seq<byte>, ts: seq<Value>)
    requires FieldsVisited(fields) && FieldsHave(fields, ts) && ReadFieldsInto(fields, b, ts).Got?
    ensures SkipFields(ElementFieldsOf(fields), b) == Got((), ReadFieldsInto(fields, b, ts).rest)
    decreases fields, 0
  {
    if fields != [] {
      var f := fields[0];
      ReadIsSkipped(f.schema, f.name, b, ts[0]);
      FieldsAreSkipped(fields[1..], ReadInto(f.schema, b, ts[0]).rest, ts[1..]);
      var es := ElementFieldsOf(fields);
      assert es[0].element == ElementOf(f.schema, f.name) && es[1..] == ElementFieldsOf(fields[1..]);
    }
  }

  lemma JumpIs(e: Element, n: nat, b: seq<byte>, size: nat) returns (total: nat)
    requires e.fixedSize == size
    ensures total == n * size && SkipMany(e, n, b) == Got((), Drop(b, total))
  {
    total := n * size;
  }

  lemma {:induction false} ManyAreSkipped(item: Schema, name: seq<byte>, b: seq<byte>, ts: seq<Value>)
    requires Visited(item) && ItemsHave(item, ts) && ReadItemsInto(item, b, ts).Got?
    ensures SkipMany(ElementOf(item, name), |ts|, b) == Got((), ReadItemsInto(item, b, ts).rest)
    decreases item, |ts| + 1
  {
    if FixedSize(item) >= 0 {
      var total := JumpIs(ElementOf(item, name), |ts|, b, FixedSize(item));
      ItemsAreFixed(item, b, ts, FixedSize(item), total);
    } else {
      ItemsAreSkipped(item, name, b, ts);
    }
  }

  lemma {:induction false} ItemsAreSkipped(item: Schema, name: seq<byte>, b: seq<byte>, ts: seq<Value>)
    requires Visited(item) && ItemsHave(item, ts) && ReadItemsInto(item, b, ts).Got?
    ensures SkipItems(ElementOf(item, name), |ts|, b) == Got((), ReadItemsInto(item, b, ts).rest)
    decreases item, |ts|
  {
    if ts != [] {
      ReadIsSkipped(item, name, b, ts[0]);
      ItemsAreSkipped(item, name, ReadInto(item, b, ts[0]).rest, ts[1..]);
    }
  }
}
