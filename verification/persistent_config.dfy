/** Configuration kept in flash: every registered structure by name, schema checksum and data. */
module PersistentConfig {
  import opened Bytes
  import opened Streams
  import opened Varuint
  import opened Framing
  import opened BinaryFormat
  import opened SchemaReader
  import opened Archive
  import opened PoolMap

  /** A registered structure and how often its owner was told of a change. */
  datatype Element = Element(schema: Schema, value: BinaryFormat.Value, updates: nat)

  type Registry = seq<Node<Element>>

  const MAX_SIZE := 16

  predicate Fits(e: Element) {
    Visited(e.schema) && Has(e.schema, e.value)
  }

  function SchemaCrc(c: Crc, s: Schema): (r: nat)
    ensures r < TWO32
  {
    Checksum32(c, Emit(s))
  }

  // ----- what is written

  function EntryBytes(c: Crc, n: Node<Element>): seq<byte>
    requires Fits(n.value)
  {
    var data := Data(n.value.schema, n.value.value);
    Str(n.key) + (LE(SchemaCrc(c, n.value.schema), 4) + (LE(Wrap32(|data|), 4) + data))
  }

  ghost predicate AllFit(reg: Registry) {
    forall i :: 0 <= i < |reg| ==> Fits(reg[i].value)
  }

  function Entries(c: Crc, reg: Registry): seq<byte>
    requires forall i :: 0 <= i < |reg| ==> Fits(reg[i].value)
  {
    if reg == [] then [] else EntryBytes(c, reg[0]) + Entries(c, reg[1..])
  }

  const TERMINATOR: seq<byte> := [0, 0, 0, 0]

  // ----- what is read back

  /** Name, schema checksum and size of the next entry, and the bytes behind; `None` is the end. */
  function ReadHead(b: seq<byte>): (r: Option<(seq<byte>, nat, nat, seq<byte>)>)
    ensures r.Some? ==> |r.value.3| < |b|
  {
    match Decode(b)
    case Got(nameSize, b1) =>
      if nameSize == 0 || nameSize >= MAX_STRING || |b1| < nameSize + 8 then None
      else
        var b2 := b1[nameSize..];
        Some((b1[..nameSize], FromLE(b2[..4]), FromLE(b2[4..8]), b2[8..]))
    case _ => None
  }

  /** What a read that runs out of bytes leaves in a structure that held a value, and how many bytes it takes; that it
      is a value of the structure's type is all there is to know about it. */
  type Leaving = f: (Schema, seq<byte>, BinaryFormat.Value) -> (BinaryFormat.Value, nat)
    | forall s, b, t :: Has(s, t) ==> Has(s, f(s, b, t).0)
    witness (s: Schema, b: seq<byte>, t: BinaryFormat.Value) => (t, 0)

  /** What to do with an entry: pass over it, or put something into the element at `i`; it fails on a failed assertion
      and on a byte that is no bool. */
  datatype Deed = Pass | Put(i: nat, value: BinaryFormat.Value, rest: seq<byte>) | Fail

  function Decide(c: Crc, leaving: Leaving, reg: Registry, name: seq<byte>, crc: nat, b: seq<byte>): (d: Deed)
    ensures d.Put? ==> d.i < |reg| && |d.rest| <= |b| && Visited(reg[d.i].value.schema) && Has(reg[d.i].value.schema, d.value)
  {
    var i := IndexOf(reg, name);
    if i == |reg| || SchemaCrc(c, reg[i].value.schema) != crc then Pass
    else if !Fits(reg[i].value) then Fail
    else
      var s, t := reg[i].value.schema, reg[i].value.value;
      match ReadInto(s, b, t)
      case Got(v, rest) => if Has(s, v) then Put(i, v, rest) else Fail
      case Short => Put(i, leaving(s, b, t).0, b[Min(leaving(s, b, t).1, |b|)..])
      case Abort => Fail
  }

  function WithValue(reg: Registry, i: nat, v: BinaryFormat.Value): (r: Registry)
    requires i < |reg|
    ensures |r| == |reg|
  {
    reg[i := Node(reg[i].key, reg[i].value.(value := v))]
  }

  /** DoLoad, up to telling the owners.  A structure's data that runs short changes nothing about how it goes on; `None`
      is a failed assertion. */
  function LoadFrom(c: Crc, leaving: Leaving, reg: Registry, b: seq<byte>): (r: Option<Registry>)
    ensures r.Some? ==> |r.value| == |reg| && forall i :: 0 <= i < |reg| ==> SameShape(r.value[i], reg[i])
    ensures r.Some? && AllFit(reg) ==> AllFit(r.value)
    decreases |b|
  {
    match ReadHead(b)
    case None => Some(reg)
    case Some((name, crc, size, rest)) =>
      match Decide(c, leaving, reg, name, crc, rest)
      case Pass => LoadFrom(c, leaving, reg, rest[Min(size, |rest|)..])
      case Put(i, v, later) => LoadFrom(c, leaving, WithValue(reg, i, v), later)
      case Fail => None
  }

  /** Loading never changes what an element is, only its value. */
  predicate SameShape(a: Node<Element>, b: Node<Element>) {
    a.key == b.key && a.value.schema == b.value.schema && a.value.updates == b.value.updates
  }

  /** An element is still what it was, and its owner was told once more. */
  predicate IsToldOnce(was: Node<Element>, now: Node<Element>) {
    now.key == was.key && now.value.schema == was.value.schema && now.value.updates == was.value.updates + 1
  }

  function Notified(reg: Registry): (r: Registry)
    ensures |r| == |reg|
    ensures forall i :: 0 <= i < |reg| ==> r[i] == Node(reg[i].key, reg[i].value.(updates := reg[i].value.updates + 1))
  {
    if reg == [] then []
    else [Node(reg[0].key, reg[0].value.(updates := reg[0].value.updates + 1))] + Notified(reg[1..])
  }

  // ----- one entry

  /** Names that a reader does not take for the end. */
  predicate IsName(name: seq<byte>) {
    0 < |name| < MAX_STRING
  }

  ghost predicate IsWritable(n: Node<Element>) {
    |n.key| < TWO64 && Fits(n.value) && |Data(n.value.schema, n.value.value)| < TWO32
  }

  /** A structure registered under the same name has the same schema checksum. */
  predicate Matches(c: Crc, a: Node<Element>, b: Node<Element>) {
    a.key == b.key && SchemaCrc(c, a.value.schema) == SchemaCrc(c, b.value.schema)
  }

  /** Equal checksums under one name mean equal schemas. */
  ghost predicate CrcTells(c: Crc, a: Node<Element>, b: Node<Element>) {
    Matches(c, a, b) ==> a.value.schema == b.value.schema
  }

  /** What loading the entry `n` does to a registered element: optionals absent from the data stay as they were. */
  function Updated(c: Crc, e: Node<Element>, n: Node<Element>): Node<Element>
    requires Fits(e.value) && Fits(n.value)
  {
    if Matches(c, e, n) && e.value.schema == n.value.schema
    then Node(e.key, e.value.(value := Merge(e.value.schema, n.value.value, e.value.value)))
    else e
  }

  lemma HeadAfterEntry(c: Crc, n: Node<Element>, rest: seq<byte>)
    requires IsWritable(n) && IsName(n.key)
    ensures
      var data := Data(n.value.schema, n.value.value);
      ReadHead(EntryBytes(c, n) + rest) == Some((n.key, SchemaCrc(c, n.value.schema), |data|, data + rest))
  {
    WrittenIsEntry(c, n);
    HeadOfEntry(n.key, SchemaCrc(c, n.value.schema), Data(n.value.schema, n.value.value), rest);
  }

  /** The registry after one entry. */
  function Loaded(c: Crc, reg: Registry, n: Node<Element>): (r: Registry)
    requires Fits(n.value) && forall i :: 0 <= i < |reg| ==> Fits(reg[i].value)
    ensures |r| == |reg|
  {
    var i := IndexOf(reg, n.key);
    if i < |reg| then reg[i := Updated(c, reg[i], n)] else reg
  }

  lemma DecideAfterEntry(c: Crc, leaving: Leaving, reg: Registry, n: Node<Element>, rest: seq<byte>)
    requires IsWritable(n) && AllFit(reg) && forall i :: 0 <= i < |reg| ==> CrcTells(c, reg[i], n)
    ensures
      var d := Decide(c, leaving, reg, n.key, SchemaCrc(c, n.value.schema), Data(n.value.schema, n.value.value) + rest);
      && d != Fail
      && (d.Pass? ==> Loaded(c, reg, n) == reg)
      && (d.Put? ==> d.rest == rest && Loaded(c, reg, n) == WithValue(reg, d.i, d.value))
  {
    var i := IndexOf(reg, n.key);
    if i < |reg| {
      assert CrcTells(c, reg[i], n);
      if Matches(c, reg[i], n) {
        ReadIntoAfterData(reg[i].value.schema, n.value.value, reg[i].value.value, rest);
        MergeHas(reg[i].value.schema, n.value.value, reg[i].value.value);
      } else {
        assert reg[i := reg[i]] == reg;
      }
    }
  }

  /** Loading an entry updates the element of its name, if there is one with the same schema, and nothing else. */
  lemma LoadOne(c: Crc, leaving: Leaving, reg: Registry, n: Node<Element>, rest: seq<byte>)
    requires IsWritable(n) && IsName(n.key) && AllFit(reg) && forall i :: 0 <= i < |reg| ==> CrcTells(c, reg[i], n)
    ensures LoadFrom(c, leaving, reg, EntryBytes(c, n) + rest) == LoadFrom(c, leaving, Loaded(c, reg, n), rest)
  {
    var data := Data(n.value.schema, n.value.value);
    HeadAfterEntry(c, n, rest);
    DecideAfterEntry(c, leaving, reg, n, rest);
    assert (data + rest)[Min(|data|, |data + rest|)..] == rest;
  }

  /** An entry of any name, sum and data, as it stands in flash. */
  function AnyEntry(name: seq<byte>, sum: nat, data: seq<byte>): seq<byte> {
    Encode(|name|) + (name + (LE(sum, 4) + (LE(|data|, 4) + data)))
  }

  /** What is written for an element is an entry with its name, the checksum of its schema's bytes, and its data. */
  lemma WrittenIsEntry(c: Crc, n: Node<Element>)
    requires IsWritable(n)
    ensures EntryBytes(c, n)
         == AnyEntry(n.key, Checksum32(c, Emit(n.value.schema)), Data(n.value.schema, n.value.value))
  {
    var data := Data(n.value.schema, n.value.value);
    Assoc(Encode(|n.key|), n.key, LE(SchemaCrc(c, n.value.schema), 4) + (LE(|data|, 4) + data));
  }

  /** An entry of a name that is not registered, or with a sum that is not that of the registered schema's bytes, is
      passed over, whatever its data. */
  lemma OtherIsPassedOver(c: Crc, leaving: Leaving, reg: Registry, name: seq<byte>, sum: nat, data: seq<byte>,
                          rest: seq<byte>)
    requires IsName(name) && sum < TWO32 && |data| < TWO32
    requires forall i :: 0 <= i < |reg| && reg[i].key == name ==> sum != Checksum32(c, Emit(reg[i].value.schema))
    ensures LoadFrom(c, leaving, reg, AnyEntry(name, sum, data) + rest) == LoadFrom(c, leaving, reg, rest)
  {
    HeadOfEntry(name, sum, data, rest);
    assert (data + rest)[Min(|data|, |data + rest|)..] == rest;
  }

  lemma HeadOfEntry(name: seq<byte>, sum: nat, data: seq<byte>, rest: seq<byte>)
    requires IsName(name) && sum < TWO32 && |data| < TWO32
    ensures ReadHead(AnyEntry(name, sum, data) + rest) == Some((name, sum, |data|, data + rest))
  {
    var p, q := LE(sum, 4), LE(|data|, 4);
    var tail := p + (q + (data + rest));
    Assoc(Encode(|name|), name + (p + (q + data)), rest);
    Assoc(name, p + (q + data), rest);
    Assoc(p, q + data, rest);
    Assoc(q, data, rest);
    var b1 := name + tail;
    DecodeAfterEncode(|name|, b1);
    assert b1[..|name|] == name && b1[|name|..] == tail;
    assert tail[..4] == p && tail[4..8] == q && tail[8..] == data + rest;
    assert Pow256(4) == TWO32 by { assert Pow256(2) == 65536; }
    LERoundTrip(sum, 4);
    LERoundTrip(|data|, 4);
  }

  /** Merging keeps an element within its type. */
  lemma LoadedFits(c: Crc, reg: Registry, n: Node<Element>)
    requires Fits(n.value) && AllFit(reg)
    ensures AllFit(Loaded(c, reg, n))
  {
    var i := IndexOf(reg, n.key);
    if i < |reg| && Matches(c, reg[i], n) && reg[i].value.schema == n.value.schema {
      MergeHas(n.value.schema, n.value.value, reg[i].value.value);
    }
  }

  // ----- a whole configuration

  function LoadedAll(c: Crc, reg: Registry, written: Registry): (r: Registry)
    requires (forall i :: 0 <= i < |written| ==> Fits(written[i].value)) && forall i :: 0 <= i < |reg| ==> Fits(reg[i].value)
    ensures |r| == |reg| && AllFit(r)
    decreases |written|
  {
    if written == [] then reg
    else
      LoadedFits(c, reg, written[0]);
      LoadedAll(c, Loaded(c, reg, written[0]), written[1..])
  }

  ghost predicate AllWritable(reg: Registry) {
    forall i :: 0 <= i < |reg| ==> IsWritable(reg[i])
  }

  ghost predicate CrcTellsAll(c: Crc, reg: Registry, written: Registry) {
    forall i, j :: 0 <= i < |reg| && 0 <= j < |written| ==> CrcTells(c, reg[i], written[j])
  }

  /** An empty name, or one of at least the largest size, ends the configuration for its reader. */
  lemma BadNameEndsIt(c: Crc, leaving: Leaving, reg: Registry, n: Node<Element>, rest: seq<byte>)
    requires |n.key| < TWO64 && !IsName(n.key) && Fits(n.value)
    ensures LoadFrom(c, leaving, reg, EntryBytes(c, n) + rest) == Some(reg)
  {
    var data := Data(n.value.schema, n.value.value);
    var behind := LE(SchemaCrc(c, n.value.schema), 4) + (LE(Wrap32(|data|), 4) + data);
    Assoc(Encode(|n.key|), n.key, behind);
    Assoc(Encode(|n.key|), n.key + behind, rest);
    DecodeAfterEncode(|n.key|, n.key + behind + rest);
  }

  /** How many entries come before the first name that ends it. */
  function NamedPrefix(written: Registry): (n: nat)
    ensures n <= |written|
  {
    if written == [] || !IsName(written[0].key) then 0 else 1 + NamedPrefix(written[1..])
  }

  lemma {:induction false} NamedPrefixIff(written: Registry, j: nat)
    requires j < |written|
    ensures j < NamedPrefix(written) <==> forall i :: 0 <= i <= j ==> IsName(written[i].key)
  {
    if IsName(written[0].key) && j > 0 {
      NamedPrefixIff(written[1..], j - 1);
      assert forall i :: 1 <= i <= j ==> written[i] == written[1..][i - 1];
    }
  }

  /** Reading what was written loads the entries up to the first bad name. */
  lemma {:induction false} LoadAll(c: Crc, leaving: Leaving, reg: Registry, written: Registry, junk: seq<byte>)
    requires AllWritable(written) && AllFit(reg) && CrcTellsAll(c, reg, written)
    ensures LoadFrom(c, leaving, reg, Entries(c, written) + (TERMINATOR + junk))
         == Some(LoadedAll(c, reg, written[..NamedPrefix(written)]))
    decreases |written|
  {
    var end := TERMINATOR + junk;
    if written == [] {
      assert [] + end == end && Encode(0) + end[1..] == end;
      DecodeAfterEncode(0, end[1..]);
    } else {
      var n, later := written[0], written[1..];
      assert IsWritable(n);
      Assoc(EntryBytes(c, n), Entries(c, later), end);
      if IsName(n.key) {
        LoadOne(c, leaving, reg, n, Entries(c, later) + end);
        LoadedFits(c, reg, n);
        var next := Loaded(c, reg, n);
        forall i, j | 0 <= i < |next| && 0 <= j < |later| ensures CrcTells(c, next[i], later[j]) {
          assert CrcTells(c, reg[i], written[j + 1]);
        }
        LoadAll(c, leaving, next, later, junk);
        assert written[..NamedPrefix(written)][1..] == later[..NamedPrefix(later)];
      } else {
        BadNameEndsIt(c, leaving, reg, n, Entries(c, later) + end);
      }
    }
  }

  lemma {:induction false} LoadedAllAt(c: Crc, reg: Registry, written: Registry, k: nat)
    requires AllWritable(written) && AllFit(reg) && CrcTellsAll(c, reg, written) && Distinct(reg) && Distinct(written) && k < |reg|
    ensures
      var e := LoadedAll(c, reg, written)[k];
      && SameShape(e, reg[k])
      && (forall j :: 0 <= j < |written| && Matches(c, reg[k], written[j]) ==> e == Updated(c, reg[k], written[j]))
      && ((forall j :: 0 <= j < |written| ==> !Matches(c, reg[k], written[j])) ==> e == reg[k])
    decreases |written|
  {
    if written != [] {
      var n, later := written[0], written[1..];
      assert IsWritable(n);
      LoadedFits(c, reg, n);
      var next := Loaded(c, reg, n);
      forall i | 0 <= i < |next| ensures SameShape(next[i], reg[i]) {}
      forall i, j | 0 <= i < |next| && 0 <= j < |later| ensures CrcTells(c, next[i], later[j]) {
        assert CrcTells(c, reg[i], written[j + 1]);
      }
      LoadedAllAt(c, next, later, k);
      LoadedAtStep(c, reg, n, k);
      var e := LoadedAll(c, reg, written)[k];
      if Matches(c, reg[k], n) {
        forall j | 0 <= j < |later| ensures !Matches(c, next[k], later[j]) {
          assert written[0].key != written[j + 1].key;
        }
      } else {
        assert next[k] == reg[k];
        forall j | 0 <= j < |written| && Matches(c, reg[k], written[j]) ensures e == Updated(c, reg[k], written[j]) {
          assert written[j] == later[j - 1];
        }
        if forall j :: 0 <= j < |written| ==> !Matches(c, reg[k], written[j]) {
          forall j | 0 <= j < |later| ensures !Matches(c, next[k], later[j]) {
            assert later[j] == written[j + 1];
          }
        }
      }
    }
  }

  lemma LoadedAtStep(c: Crc, reg: Registry, n: Node<Element>, k: nat)
    requires Fits(n.value) && AllFit(reg) && Distinct(reg) && k < |reg| && CrcTells(c, reg[k], n)
    ensures Loaded(c, reg, n)[k] == if Matches(c, reg[k], n) then Updated(c, reg[k], n) else reg[k]
    ensures Distinct(Loaded(c, reg, n))
  {
    if reg[k].key == n.key {
      IndexOfIs(reg, n.key, k);
    }
  }

  /** Writing one registry and loading into another, whatever the orders and whatever follows in flash: an element with
      the name and schema checksum of a written one that is reached before a bad name gets the written value, when its
      optionals start out empty; every other element keeps its own; and nothing else about any element changes. */
  lemma LoadAfterWrite(c: Crc, leaving: Leaving, reg: Registry, written: Registry, junk: seq<byte>, k: nat)
    requires AllWritable(written) && AllFit(reg) && CrcTellsAll(c, reg, written) && Distinct(reg) && Distinct(written) && k < |reg|
    ensures
      var r := LoadFrom(c, leaving, reg, Entries(c, written) + (TERMINATOR + junk));
      && r.Some? && |r.value| == |reg| && SameShape(r.value[k], reg[k])
      && (forall j :: 0 <= j < |written| && Matches(c, reg[k], written[j]) ==>
            if j < NamedPrefix(written) then Clean(reg[k].value.schema, reg[k].value.value) ==> r.value[k].value.value == written[j].value.value
            else r.value[k] == reg[k])
      && ((forall j :: 0 <= j < |written| ==> !Matches(c, reg[k], written[j])) ==> r.value[k] == reg[k])
  {
    var n := NamedPrefix(written);
    var seen := written[..n];
    LoadAll(c, leaving, reg, written, junk);
    assert forall i :: 0 <= i < n ==> seen[i] == written[i];
    LoadedAllAt(c, reg, seen, k);
    forall j | 0 <= j < |written| && Matches(c, reg[k], written[j])
      ensures if j < n then Clean(reg[k].value.schema, reg[k].value.value) ==>
                              LoadedAll(c, reg, seen)[k].value.value == written[j].value.value
              else LoadedAll(c, reg, seen)[k] == reg[k]
    {
      assert CrcTells(c, reg[k], written[j]) && IsWritable(written[j]);
      if j >= n {
        forall i | 0 <= i < n ensures !Matches(c, reg[k], seen[i]) {
          assert written[i].key != written[j].key;
        }
      } else if Clean(reg[k].value.schema, reg[k].value.value) {
        assert Matches(c, reg[k], seen[j]);
        CleanMergesToValue(reg[k].value.schema, written[j].value.value, reg[k].value.value);
      }
    }
  }

  /** So an entry that would change an element does so if and only if every name up to and including its own is one a
      reader accepts. */
  lemma EntryLoadedIff(c: Crc, leaving: Leaving, reg: Registry, written: Registry, junk: seq<byte>, k: nat, j: nat)
    requires AllWritable(written) && AllFit(reg) && CrcTellsAll(c, reg, written) && Distinct(reg) && Distinct(written)
    requires k < |reg| && j < |written| && Matches(c, reg[k], written[j])
    requires Fits(reg[k].value) && Clean(reg[k].value.schema, reg[k].value.value) && reg[k].value.value != written[j].value.value
    ensures
      var r := LoadFrom(c, leaving, reg, Entries(c, written) + (TERMINATOR + junk));
      && r.Some? && |r.value| == |reg|
      && (r.value[k].value.value == written[j].value.value <==> forall i :: 0 <= i <= j ==> IsName(written[i].key))
  {
    LoadAfterWrite(c, leaving, reg, written, junk, k);
    NamedPrefixIff(written, j);
  }

  // ----- the class

  /** One entry's size, and that of a whole configuration. */
  function SizeOf(c: Crc, reg: Registry): nat
    requires forall i :: 0 <= i < |reg| ==> Fits(reg[i].value)
  {
    |Entries(c, reg)| + 4
  }

  class Config {
    const crc: Crc
    const leaving: Leaving
    const elements: Map<Element>
    const flash: array<byte>

    ghost predicate Valid()
      reads this, elements, elements.data
    {
      elements.Valid() && elements.data.Length == MAX_SIZE && AllFit(elements.Nodes())
    }

    constructor (crc: Crc, leaving: Leaving, flash: array<byte>)
      ensures Valid() && elements.Nodes() == [] && this.flash == flash && this.crc == crc && this.leaving == leaving
      ensures fresh(elements) && fresh(elements.data)
    {
      this.crc := crc;
      this.leaving := leaving;
      this.flash := flash;
      elements := new Map<Element>(MAX_SIZE, Element(Schema.Prim(Null), Nothing, 0));
    }

    /** False is a failed assertion: the name is taken, or the map is full. */
    method Register(name: seq<byte>, schema: Schema, value: BinaryFormat.Value) returns (ok: bool)
      requires Valid() && Visited(schema) && Has(schema, value)
      modifies elements, elements.data
      ensures Valid()
      ensures ok <==> IndexOf(old(elements.Nodes()), name) == |old(elements.Nodes())| && |old(elements.Nodes())| < MAX_SIZE
      ensures elements.Nodes() == if ok then old(elements.Nodes()) + [Node(name, Element(schema, value, 0))] else old(elements.Nodes())
    {
      var r := elements.Insert(Node(name, Element(schema, value, 0)));
      ok := r.Some? && r.value.1;
    }

    /** Programs bytes one after the other from a position on. */
    method Program(position: nat, b: seq<byte>) returns (after: nat)
      requires position + |b| <= flash.Length
      modifies flash
      ensures after == position + |b| && flash[..after] == old(flash[..position]) + b
      ensures flash[after..] == old(flash[position + |b|..])
    {
      ghost var was := flash[..];
      for i := 0 to |b|
        invariant flash[..position + i] == was[..position] + b[..i]
        invariant flash[position + i..] == was[position + i..]
      {
        flash[position + i] := b[i];
        assert flash[..position + (i + 1)] == flash[..position + i] + [b[i]];
        assert was[..position] + b[..i] + [b[i]] == was[..position] + b[..i + 1];
      }
      after := position + |b|;
    }

    /** Erases the flash, then programs every element and the end mark. */
    method Write()
      requires Valid() && SizeOf(crc, elements.Nodes()) <= flash.Length
      modifies flash
      ensures flash[..] == Entries(crc, elements.Nodes()) + (TERMINATOR + flash[SizeOf(crc, elements.Nodes())..])
      ensures forall k :: SizeOf(crc, elements.Nodes()) <= k < flash.Length ==> flash[k] == 255
    {
      forall k | 0 <= k < flash.Length {
        flash[k] := 255;
      }
      var position := WriteEntries();
      ghost var before := flash[..position];
      position := Program(position, TERMINATOR);
      assert flash[..] == flash[..position] + flash[position..];
      Assoc(before, TERMINATOR, flash[position..]);
      assert forall k :: position <= k < flash.Length ==> flash[k] == flash[position..][k - position];
    }

    method WriteEntries() returns (position: nat)
      requires Valid() && SizeOf(crc, elements.Nodes()) <= flash.Length
      requires forall k :: 0 <= k < flash.Length ==> flash[k] == 255
      modifies flash
      ensures position + 4 == SizeOf(crc, elements.Nodes()) && flash[..position] == Entries(crc, elements.Nodes())
      ensures forall k :: position <= k < flash.Length ==> flash[k] == 255
    {
      position := 0;
      ghost var nodes := elements.Nodes();
      for i := 0 to elements.size
        invariant Valid() && elements.Nodes() == nodes
        invariant position + |Entries(crc, nodes[i..])| + 4 == SizeOf(crc, nodes)
        invariant flash[..position] + Entries(crc, nodes[i..]) == Entries(crc, nodes)
        invariant forall k :: position <= k < flash.Length ==> flash[k] == 255
      {
        var n := elements.data[i];
        assert n == nodes[i] && nodes[i..][1..] == nodes[i + 1..];
        var entry := EntryOf(n);
        Assoc(flash[..position], entry, Entries(crc, nodes[i + 1..]));
        position := Program(position, entry);
        assert forall k :: position <= k < flash.Length ==> flash[k] == flash[position..][k - position];
      }
      assert flash[..position] + [] == flash[..position];
    }

    method EntryOf(n: Node<Element>) returns (entry: seq<byte>)
      requires Fits(n.value)
      ensures entry == EntryBytes(crc, n)
    {
      var data := new OStream();
      Archive.Write(n.value.schema, n.value.value, data);
      assert [] + Data(n.value.schema, n.value.value) == Data(n.value.schema, n.value.value);
      entry := Str(n.key) + (LE(SchemaCrc(crc, n.value.schema), 4) + (LE(Wrap32(|data.data|), 4) + data.data));
    }

    /** "conf size": counts without writing, to exactly what Write programs. */
    method Size() returns (size: nat)
      requires Valid()
      ensures size == SizeOf(crc, elements.Nodes())
    {
      size := 0;
      ghost var nodes := elements.Nodes();
      for i := 0 to elements.size
        invariant size + |Entries(crc, nodes[i..])| == |Entries(crc, nodes)|
      {
        var n := elements.data[i];
        assert n == nodes[i] && nodes[i..][1..] == nodes[i + 1..];
        var nameSize := GetVaruintSize(|n.key|);
        var data := new OStream();
        Archive.Write(n.value.schema, n.value.value, data);
        size := size + nameSize + |n.key| + 4 + 4 + |data.data|;
      }
      size := size + 4;
    }

    /** False is a failed assertion. */
    method DoLoad() returns (ok: bool)
      requires Valid()
      modifies elements.data
      ensures elements.Valid() && (ok ==> Valid())
      ensures ok <==> LoadFrom(crc, leaving, old(elements.Nodes()), flash[..]).Some?
      ensures ok ==> elements.Nodes() == Notified(LoadFrom(crc, leaving, old(elements.Nodes()), flash[..]).value)
      ensures ok ==> |elements.Nodes()| == |old(elements.Nodes())|
                     && forall i :: 0 <= i < |elements.Nodes()| ==> IsToldOnce(old(elements.Nodes())[i], elements.Nodes()[i])
    {
      ok := LoadAllFrom();
      if ok {
        NotifyAll();
      }
    }

    method LoadAllFrom() returns (ok: bool)
      requires elements.Valid() && elements.data.Length == MAX_SIZE
      modifies elements.data
      ensures elements.Valid() && elements.size == old(elements.size)
      ensures ok <==> LoadFrom(crc, leaving, old(elements.Nodes()), flash[..]).Some?
      ensures ok ==> elements.Nodes() == LoadFrom(crc, leaving, old(elements.Nodes()), flash[..]).value
    {
      var stream := new BufferReadStream(flash[..]);
      ghost var all := LoadFrom(crc, leaving, elements.Nodes(), flash[..]);
      while true
        invariant elements.Valid() && elements.size == old(elements.size) && stream.Valid()
        invariant LoadFrom(crc, leaving, elements.Nodes(), stream.Rest()) == all
        decreases stream.Remaining()
      {
        var head := ReadHeadOf(stream);
        if head == None {
          return true;
        }
        var read := LoadEntry(head.value.0, head.value.1, head.value.2, stream);
        if !read {
          return false;
        }
      }
    }

    /** One entry, from its data on. */
    method LoadEntry(name: seq<byte>, expectedCrc: nat, dataSize: nat, stream: BufferReadStream) returns (ok: bool)
      requires elements.Valid() && elements.data.Length == MAX_SIZE && stream.Valid()
      modifies elements.data, stream
      ensures elements.Valid() && elements.size == old(elements.size) && stream.Valid()
      ensures match Decide(crc, leaving, old(elements.Nodes()), name, expectedCrc, old(stream.Rest()))
              case Pass => ok && elements.Nodes() == old(elements.Nodes())
                           && stream.Rest() == old(stream.Rest())[Min(dataSize, |old(stream.Rest())|)..]
              case Put(i, v, later) => ok && elements.Nodes() == WithValue(old(elements.Nodes()), i, v) && stream.Rest() == later
              case Fail => !ok
    {
      var it := elements.Find(name);
      if it == elements.size {
        stream.Ignore(dataSize);
        return true;
      }
      var e := elements.data[it].value;
      assert e == elements.Nodes()[it].value;
      if SchemaCrc(crc, e.schema) != expectedCrc {
        stream.Ignore(dataSize);
        return true;
      }
      if !Fits(e) {
        return false;
      }
      var value := ReadBinary(stream, e);
      if value == None {
        return false;
      }
      elements.SetValue(it, e.(value := value.value));
      ok := true;
    }

    /** Reads a structure's data over what it holds; that it ran short is nobody's business. */
    method ReadBinary(stream: BufferReadStream, e: Element) returns (value: Option<BinaryFormat.Value>)
      requires stream.Valid() && Fits(e)
      modifies stream
      ensures stream.Valid()
      ensures match ReadInto(e.schema, old(stream.Rest()), e.value)
              case Got(v, rest) => value == (if Has(e.schema, v) then Some(v) else None) && stream.Rest() == rest
              case Short =>
                var left := leaving(e.schema, old(stream.Rest()), e.value);
                value == Some(left.0) && stream.Rest() == old(stream.Rest())[Min(left.1, |old(stream.Rest())|)..]
              case Abort => value == None
    {
      var start := stream.offset;
      var b := stream.buffer[start..];
      var read := Archive.Read(e.schema, stream, e.value);
      match read {
        case Fine(v) =>
          value := if Has(e.schema, v) then Some(v) else None;
        case Threw =>
          var left := leaving(e.schema, b, e.value);
          SliceOfSuffix(stream.buffer, start, Min(left.1, |b|), |b|);
          stream.offset := start + Min(left.1, |b|);
          value := Some(left.0);
        case Aborted =>
          value := None;
      }
    }

    method ReadHeadOf(stream: BufferReadStream) returns (r: Option<(seq<byte>, nat, nat)>)
      requires stream.Valid()
      modifies stream
      ensures stream.Valid()
      ensures match ReadHead(old(stream.Rest()))
              case None => r == None
              case Some((name, crc, size, rest)) => r == Some((name, crc, size)) && stream.Rest() == rest
    {
      var nameSize := ReadVaruint(stream);
      if nameSize == None || nameSize.value == 0 || nameSize.value >= MAX_STRING {
        return None;
      }
      if stream.Remaining() < nameSize.value + 8 {
        return None;
      }
      var name := stream.Read(nameSize.value);
      ghost var b2 := stream.Rest();
      var expectedCrc := stream.ReadScalar(4);
      var dataSize := stream.ReadScalar(4);
      assert b2[4..][..4] == b2[4..8] && b2[4..][4..] == b2[8..];
      r := Some((name, expectedCrc.value, dataSize.value));
    }

    /** Tells every owner. */
    method NotifyAll()
      requires elements.Valid()
      modifies elements.data
      ensures elements.Valid() && elements.size == old(elements.size)
      ensures elements.Nodes() == Notified(old(elements.Nodes()))
    {
      ghost var nodes := elements.Nodes();
      for i := 0 to elements.size
        invariant elements.Valid() && elements.size == old(elements.size)
        invariant forall k :: 0 <= k < elements.size ==> elements.Nodes()[k] == if k < i then Notified(nodes)[k] else nodes[k]
      {
        var e := elements.data[i].value;
        assert e == elements.Nodes()[i].value;
        elements.SetValue(i, e.(updates := e.updates + 1));
      }
    }
  }
}
