/** The parser and the skipper as they run: loops over a stream whose offset moves. */
module SchemaReader {
  import opened Bytes
  import opened Streams
  import opened Varuint
  import opened BinaryFormat
  import opened SchemaParser
  import opened ElementDeque

  /** How a read ends: with a value, by an exception on missing bytes, or by an assertion or another exception. */
  datatype Outcome<+T> = Fine(value: T) | Threw | Aborted

  /** The outcome and the bytes left are those of the specification. */
  ghost predicate Agrees<T>(o: Outcome<T>, r: Read<T>, left: seq<byte>) {
    match r
    case Got(v, rest) => o == Fine(v) && left == rest
    case Short => o == Threw
    case Abort => o == Aborted
  }

  method Count(st: BufferReadStream) returns (o: Outcome<nat>)
    requires st.Valid()
    modifies st
    ensures st.Valid() && Agrees(o, Decode(old(st.Rest())), st.Rest())
  {
    var n := ReadVaruint(st);
    o := if n == None then Threw else Fine(n.value);
  }

  method Scalar(st: BufferReadStream, size: nat) returns (o: Outcome<nat>)
    requires st.Valid()
    modifies st
    ensures st.Valid() && Agrees(o, ReadLE(old(st.Rest()), size), st.Rest())
  {
    var n := st.ReadScalar(size);
    o := if n == None then Threw else Fine(n.value);
  }

  method StringOf(st: BufferReadStream) returns (o: Outcome<seq<byte>>)
    requires st.Valid()
    modifies st
    ensures st.Valid() && Agrees(o, ReadString(old(st.Rest())), st.Rest())
  {
    var size := Count(st);
    if !size.Fine? {
      return Threw;
    }
    if size.value > MAX_STRING {
      return Aborted;
    }
    ghost var b := st.Rest();
    var text := st.Read(size.value);
    if st.lastRead != size.value {
      return Threw;
    }
    assert b[..size.value] == text && b[size.value..] == st.Rest();
    o := Fine(text);
  }

  method IgnoreBytes(st: BufferReadStream, n: nat)
    requires st.Valid()
    modifies st
    ensures st.Valid() && st.Rest() == Drop(old(st.Rest()), n)
  {
    st.Ignore(n);
  }

  /** Element::Ignore. */
  method Ignore(e: Element, st: BufferReadStream) returns (o: Outcome<()>)
    requires st.Valid()
    modifies st
    ensures st.Valid() && Agrees(o, Skip(e, old(st.Rest())), st.Rest())
    decreases e, 0
  {
    o := Fine(());
    if e.fixedSize >= 0 {
      IgnoreBytes(st, e.fixedSize);
    } else if e.kind == 5 || e.kind == 6 {
      var _ := ReadVaruint(st);
    } else if e.kind == 9 || e.kind == 10 {
      var size := Count(st);
      if !size.Fine? { return Threw; }
      IgnoreBytes(st, size.value);
    } else if e.kind == 16 {
      o := IgnoreFields(e.fields, st);
    } else if e.kind == 17 {
      if e.children == [] { return Aborted; }
      o := Ignore(e.children[0], st);
    } else if e.kind == 18 {
      var n := Count(st);
      if !n.Fine? { return Threw; }
      if e.children == [] { return Aborted; }
      o := IgnoreMany(e.children[0], n.value, st);
    } else if e.kind == 19 {
      if e.children == [] { return Aborted; }
      o := IgnoreMany(e.children[0], e.arraySize, st);
    } else if e.kind == 20 {
      var n := Count(st);
      if !n.Fine? { return Threw; }
      if e.children == [] { return Aborted; }
      o := IgnorePairs(e.children[0], n.value, st);
    } else if e.kind == 21 {
      var i := Count(st);
      if !i.Fine? { return Threw; }
      if i.value >= |e.children| { return Aborted; }
      o := Ignore(e.children[i.value], st);
    } else if !(11 <= e.kind <= 15) {
      return Aborted;
    }
  }

  method IgnoreFields(fields: seq<ElementField>, st: BufferReadStream) returns (o: Outcome<()>)
    requires st.Valid()
    modifies st
    ensures st.Valid() && Agrees(o, SkipFields(fields, old(st.Rest())), st.Rest())
    decreases fields, 0
  {
    for i := 0 to |fields|
      invariant st.Valid()
      invariant SkipFields(fields, old(st.Rest())) == SkipFields(fields[i..], st.Rest())
    {
      assert fields[i..][0] == fields[i] && fields[i..][1..] == fields[i + 1..];
      o := Ignore(fields[i].element, st);
      if !o.Fine? { return; }
    }
    o := Fine(());
  }

  method IgnoreMany(e: Element, n: nat, st: BufferReadStream) returns (o: Outcome<()>)
    requires st.Valid()
    modifies st
    ensures st.Valid() && Agrees(o, SkipMany(e, n, old(st.Rest())), st.Rest())
    decreases e, 1
  {
    if e.fixedSize >= 0 {
      IgnoreBytes(st, n * e.fixedSize);
      return Fine(());
    }
    for i := 0 to n
      invariant st.Valid() && SkipItems(e, n, old(st.Rest())) == SkipItems(e, n - i, st.Rest())
    {
      o := Ignore(e, st);
      if !o.Fine? { return; }
    }
    o := Fine(());
  }

  method IgnorePairs(e: Element, n: nat, st: BufferReadStream) returns (o: Outcome<()>)
    requires st.Valid()
    modifies st
    ensures st.Valid() && Agrees(o, SkipPairs(e, n, old(st.Rest())), st.Rest())
    decreases e, 2
  {
    for i := 0 to n
      invariant st.Valid() && SkipPairs(e, n, old(st.Rest())) == SkipPairs(e, n - i, st.Rest())
    {
      o := IgnorePair(e, st);
      if !o.Fine? { return; }
    }
    o := Fine(());
  }

  method IgnorePair(e: Element, st: BufferReadStream) returns (o: Outcome<()>)
    requires st.Valid()
    modifies st
    ensures st.Valid() && Agrees(o, SkipPair(e, old(st.Rest())), st.Rest())
    decreases e, 1
  {
    var key := StringOf(st);
    if key.Threw? { return Threw; }
    if key.Aborted? { return Aborted; }
    o := Ignore(e, st);
  }

  /** Element::Read: the bytes skipped over. */
  method ReadRaw(e: Element, st: BufferReadStream) returns (o: Outcome<seq<byte>>)
    requires st.Valid()
    modifies st
    ensures st.Valid()
    ensures match Skip(e, old(st.Rest()))
            case Got(_, rest) => o == Fine(Recorded(old(st.Rest()), rest)) && st.Rest() == rest
            case Short => o == Threw
            case Abort => o == Aborted
  {
    var start := st.offset;
    var skipped := Ignore(e, st);
    match skipped {
      case Threw => return Threw;
      case Aborted => return Aborted;
      case Fine(_) =>
        OffsetOf(st.buffer, start, st.offset);
        o := Fine(st.buffer[start..st.offset]);
    }
  }

  /** Offsets into one buffer and the bytes recorded between them. */
  lemma OffsetOf(buffer: seq<byte>, start: nat, end: nat)
    requires start <= |buffer| && end <= |buffer| && |buffer[end..]| <= |buffer[start..]|
    ensures start <= end && buffer[start..end] == Recorded(buffer[start..], buffer[end..])
  {
  }

  method UIntLike(e: Element, st: BufferReadStream) returns (o: Outcome<nat>)
    requires st.Valid()
    modifies st
    ensures st.Valid() && Agrees(o, ReadUIntLike(e, old(st.Rest())), st.Rest())
    decreases e
  {
    if e.kind == 4 {
      if e.intSize == 1 || e.intSize == 2 || e.intSize == 4 || e.intSize == 8 {
        o := Scalar(st, e.intSize);
      } else {
        o := Aborted;
      }
    } else if e.kind == 6 {
      o := Count(st);
    } else if e.kind == 17 && e.children != [] {
      o := UIntLike(e.children[0], st);
    } else {
      o := Aborted;
    }
  }

  lemma StringsStep(n: nat, b: seq<byte>, all: seq<seq<byte>>)
    requires n > 0
    ensures
      var r := ReadString(b);
      Prepend(all, ParseStrings(n, b)) ==
        if r.Got? then Prepend(all + [r.value], ParseStrings(n - 1, r.rest)) else r.PropagateFailure()
  {
    var r := ReadString(b);
    if r.Got? {
      PrependOne(all, r.value, ParseStrings(n - 1, r.rest));
    }
  }

  method Strings(n: nat, st: BufferReadStream) returns (o: Outcome<seq<seq<byte>>>)
    requires st.Valid()
    modifies st
    ensures st.Valid() && Agrees(o, ParseStrings(n, old(st.Rest())), st.Rest())
  {
    var all: seq<seq<byte>> := [];
    ghost var whole := ParseStrings(n, st.Rest());
    PrependNone(whole);
    for i := 0 to n
      invariant st.Valid() && whole == Prepend(all, ParseStrings(n - i, st.Rest()))
    {
      StringsStep(n - i, st.Rest(), all);
      var one := StringOf(st);
      if !one.Fine? { return if one.Threw? then Threw else Aborted; }
      all := all + [one.value];
    }
    assert all + [] == all;
    o := Fine(all);
  }

  /** A list whose first part is already read. */
  ghost function Prepend<T>(first: seq<T>, r: Read<seq<T>>): Read<seq<T>> {
    match r
    case Got(others, rest) => Got(first + others, rest)
    case Short => Short
    case Abort => Abort
  }

  lemma PrependNone<T>(r: Read<seq<T>>)
    ensures Prepend([], r) == r
  {
    if r.Got? {
      assert [] + r.value == r.value;
    }
  }

  /** An element read in place moves from what is to be done to what is done. */
  lemma Replaced<T>(done: seq<T>, todo: seq<T>, v: T)
    requires todo != []
    ensures (done + todo)[|done| := v] == (done + [v]) + todo[1..]
  {
  }

  lemma PrependOne<T>(first: seq<T>, one: T, r: Read<seq<T>>)
    ensures Prepend(first, Prepend([one], r)) == Prepend(first + [one], r)
  {
    if r.Got? {
      assert first + ([one] + r.value) == first + [one] + r.value;
    }
  }

  method EnumItems(child: Element, n: nat, st: BufferReadStream) returns (o: Outcome<map<nat, seq<byte>>>)
    requires st.Valid()
    modifies st
    ensures st.Valid() && Agrees(o, ParseItems(child, n, old(st.Rest()), map[]), st.Rest())
  {
    var items: map<nat, seq<byte>> := map[];
    for i := 0 to n
      invariant st.Valid()
      invariant ParseItems(child, n, old(st.Rest()), map[]) == ParseItems(child, n - i, st.Rest(), items)
    {
      var item := EnumItem(child, st);
      if item.Threw? { return Threw; }
      if item.Aborted? { return Aborted; }
      items := Insert(items, item.value.0, item.value.1);
    }
    o := Fine(items);
  }

  method EnumItem(child: Element, st: BufferReadStream) returns (o: Outcome<(nat, seq<byte>)>)
    requires st.Valid()
    modifies st
    ensures st.Valid() && Agrees(o, ParseItem(child, old(st.Rest())), st.Rest())
  {
    var value := UIntLike(child, st);
    if value.Threw? { return Threw; }
    if value.Aborted? { return Aborted; }
    var name := StringOf(st);
    match name {
      case Threw => o := Threw;
      case Aborted => o := Aborted;
      case Fine(text) => o := Fine((value.value, text));
    }
  }

  method FieldHead(st: BufferReadStream) returns (o: Outcome<(nat, seq<byte>, seq<seq<byte>>)>)
    requires st.Valid()
    modifies st
    ensures st.Valid() && Agrees(o, ParseFieldHead(old(st.Rest())), st.Rest())
  {
    var flags := Count(st);
    if !flags.Fine? { return Threw; }
    var name := StringOf(st);
    if name.Threw? { return Threw; }
    if name.Aborted? { return Aborted; }
    var n := Count(st);
    if !n.Fine? { return Threw; }
    var aliases := Strings(n.value, st);
    match aliases {
      case Threw => o := Threw;
      case Aborted => o := Aborted;
      case Fine(list) => o := Fine((flags.value, name.value, list));
    }
  }

  method FieldDefault(element: Element, st: BufferReadStream) returns (o: Outcome<seq<byte>>)
    requires st.Valid()
    modifies st
    ensures st.Valid() && Agrees(o, ParseDefault(element, old(st.Rest())), st.Rest())
  {
    var present := Scalar(st, 1);
    if !present.Fine? { return Threw; }
    if present.value == 1 {
      o := ReadRaw(element, st);
    } else {
      o := Fine([]);
    }
  }

  /** BinarySchemaParser::Impl::ReadField; the field's element is stored after `parent`, and says where. */
  method ReadField(st: BufferReadStream, deque: Deque, parent: nat) returns (o: Outcome<ElementField>, at: nat)
    requires st.Valid()
    modifies st, deque
    ensures st.Valid() && Agrees(o, ParseField(old(st.Rest())), st.Rest())
    ensures o.Fine? ==> at == |old(deque.nodes)| && Grew(old(deque.nodes), deque.nodes, TreeOf(o.value.element), Some(parent))
    ensures o.Fine? && o.value.element.kind == FINAL ==> IsFinalLeaf(o.value.element)
    decreases |st.Rest()|, 0
  {
    at := |deque.nodes|;
    var head := FieldHead(st);
    if head.Threw? { return Threw, at; }
    if head.Aborted? { return Aborted, at; }
    var element := ReadType(st, head.value.1, deque, Some(parent));
    if element.Threw? { return Threw, at; }
    if element.Aborted? { return Aborted, at; }
    var default := FieldDefault(element.value, st);
    match default {
      case Threw => o := Threw;
      case Aborted => o := Aborted;
      case Fine(d) => o := Fine(ElementField(head.value.0, head.value.1, head.value.2, element.value, d));
    }
  }

  method ReadFields(st: BufferReadStream, deque: Deque, parent: nat)
    returns (o: Outcome<(seq<ElementField>, int)>, ids: seq<nat>)
    requires st.Valid()
    modifies st, deque
    ensures st.Valid()
    ensures match ParseFields(old(st.Rest()))
            case Got(fields, rest) => o == Fine((fields, ElementFieldsSize(fields))) && st.Rest() == rest
            case Short => o == Threw
            case Abort => o == Aborted
    ensures o.Fine? ==> GrewToFinal(old(deque.nodes), deque.nodes, TreesOfFields(o.value.0), parent, ids)
    decreases |st.Rest()|, 1
  {
    var fields: seq<ElementField> := [];
    var maybeSize := 0;
    ids := [];
    PrependNone(ParseFields(st.Rest()));
    NoneGrown(deque.nodes, Some(parent));
    while true
      invariant st.Valid() && |st.Rest()| <= |old(st.Rest())|
      invariant ParseFields(old(st.Rest())) == Prepend(fields, ParseFields(st.Rest()))
      invariant maybeSize == ElementFieldsSize(fields)
      invariant GrewAll(old(deque.nodes), deque.nodes, TreesOfFields(fields), Some(parent), ids)
      decreases |st.Rest()|
    {
      ghost var mid := deque.nodes;
      var field, at := ReadField(st, deque, parent);
      if field.Threw? { return Threw, ids; }
      if field.Aborted? { return Aborted, ids; }
      if field.value.element.kind == FINAL {
        assert fields + [] == fields;
        GrewByFinal(old(deque.nodes), mid, deque.nodes, TreesOfFields(fields), field.value.element, parent, ids);
        return Fine((fields, maybeSize)), ids;
      }
      PrependOne(fields, field.value, ParseFields(st.Rest()));
      SizeOfSnoc(fields, field.value);
      GrewByField(old(deque.nodes), mid, deque.nodes, fields, field.value, parent, ids);
      fields, ids := fields + [field.value], ids + [at];
      if field.value.element.fixedSize < 0 {
        maybeSize := -1;
      } else if maybeSize >= 0 {
        maybeSize := maybeSize + field.value.element.fixedSize;
      }
    }
  }

  /** Adding sizes front to back, as the parser does, or back to front. */
  lemma {:induction false} SizeOfSnoc(fields: seq<ElementField>, f: ElementField)
    ensures ElementFieldsSize(fields + [f]) ==
            if f.element.fixedSize < 0 || ElementFieldsSize(fields) < 0 then -1
            else ElementFieldsSize(fields) + f.element.fixedSize
    ensures ElementFieldsSize(fields) >= -1
  {
    if fields == [] {
      assert [] + [f] == [f] && [f][1..] == [];
    } else {
      SizeOfSnoc(fields[1..], f);
      assert (fields + [f])[1..] == fields[1..] + [f];
    }
  }

  /** BinarySchemaParser::Impl::ReadType: the element's place is kept first, and filled in when all its parts have
      theirs. */
  method ReadType(st: BufferReadStream, name: seq<byte>, deque: Deque, parent: Option<nat>)
    returns (o: Outcome<Element>)
    requires st.Valid()
    modifies st, deque
    ensures st.Valid() && Agrees(o, ParseType(old(st.Rest()), name), st.Rest())
    ensures o.Fine? ==> Grew(old(deque.nodes), deque.nodes, TreeOf(o.value), parent)
    ensures o.Fine? && o.value.kind == FINAL ==> IsFinalLeaf(o.value)
    decreases |st.Rest()|, 0
  {
    var start, at := st.offset, |deque.nodes|;
    ghost var was := deque.nodes;
    deque.PushBack(Node(Leaf(FINAL, name, -1, -1, []), parent, [], []));
    ghost var kept := deque.nodes;
    var type_ := Count(st);
    if !type_.Fine? { return Threw; }
    if type_.value > LAST_TYPE { return Aborted; }
    var parts, ids := ReadParts(type_.value, st, name, deque, at);
    if parts.Threw? { return Threw; }
    if parts.Aborted? { return Aborted; }
    OffsetOf(st.buffer, start, st.offset);
    var result := parts.value.(binarySchema := st.buffer[start..st.offset]);
    FilledIn(was, kept, deque.nodes, result, parent, ids);
    deque.nodes := deque.nodes[at := if result.kind == 16 then Node(result, parent, [], ids) else Node(result, parent, ids, [])];
    o := Fine(result);
  }

  /** The parts of an element, stored behind it, and where they start. */
  ghost predicate PartsGrew(was: seq<Node>, now: seq<Node>, e: Element, at: nat, ids: seq<nat>) {
    && (if TreeOf(e).hasFinal then GrewToFinal(was, now, TreeOf(e).kids, at, ids) else GrewAll(was, now, TreeOf(e).kids, Some(at), ids))
    && (if e.kind == 16 then e.children == [] else e.fields == [])
    && (e.kind == FINAL ==> IsFinalLeaf(e))
  }

  method ReadParts(kind: nat, st: BufferReadStream, name: seq<byte>, deque: Deque, at: nat)
    returns (o: Outcome<Element>, ids: seq<nat>)
    requires st.Valid()
    modifies st, deque
    ensures st.Valid() && Agrees(o, ParseParts(kind, old(st.Rest()), name), st.Rest())
    ensures o.Fine? ==> PartsGrew(old(deque.nodes), deque.nodes, o.value, at, ids)
    decreases |st.Rest()|, 2
  {
    ids := [];
    var result := Leaf(kind, name, -1, LeafSize(kind), []);
    NoneGrown(deque.nodes, Some(at));
    if kind == 3 || kind == 4 {
      var size := Scalar(st, 1);
      if !size.Fine? { return Threw, ids; }
      result := result.(intSize := size.value, fixedSize := size.value);
    } else if kind == 16 {
      var flags := Count(st);
      if !flags.Fine? { return Threw, ids; }
      var fields;
      fields, ids := ReadFields(st, deque, at);
      if fields.Threw? { return Threw, ids; }
      if fields.Aborted? { return Aborted, ids; }
      result := result.(objectFlags := flags.value, fields := fields.value.0, fixedSize := fields.value.1);
    } else if kind == 17 {
      ids := [|deque.nodes|];
      var parts := ReadEnumParts(st, name, deque, at);
      if parts.Threw? { return Threw, ids; }
      if parts.Aborted? { return Aborted, ids; }
      var (child, items) := parts.value;
      OneGrown(old(deque.nodes), deque.nodes, child, at);
      result := result.(children := [child], enumItems := items, fixedSize := child.fixedSize);
    } else if kind == 18 || kind == 20 || kind == 19 {
      if kind == 19 {
        var n := Count(st);
        if !n.Fine? { return Threw, ids; }
        result := result.(arraySize := n.value);
      }
      ids := [|deque.nodes|];
      var child := ReadType(st, name, deque, Some(at));
      if child.Threw? { return Threw, ids; }
      if child.Aborted? { return Aborted, ids; }
      OneGrown(old(deque.nodes), deque.nodes, child.value, at);
      result := result.(children := [child.value]);
    } else if kind == 21 {
      var children;
      children, ids := ReadAlts(st, name, deque, at);
      if children.Threw? { return Threw, ids; }
      if children.Aborted? { return Aborted, ids; }
      result := result.(children := children.value);
    }
    o := Fine(result);
  }

  method ReadEnumParts(st: BufferReadStream, name: seq<byte>, deque: Deque, parent: nat)
    returns (o: Outcome<(Element, map<nat, seq<byte>>)>)
    requires st.Valid()
    modifies st, deque
    ensures st.Valid() && Agrees(o, ParseEnumParts(old(st.Rest()), name), st.Rest())
    ensures o.Fine? ==> Grew(old(deque.nodes), deque.nodes, TreeOf(o.value.0), Some(parent))
    decreases |st.Rest()|, 1
  {
    var child := ReadType(st, name, deque, Some(parent));
    if child.Threw? { return Threw; }
    if child.Aborted? { return Aborted; }
    var n := Count(st);
    if !n.Fine? { return Threw; }
    var items := EnumItems(child.value, n.value, st);
    match items {
      case Threw => o := Threw;
      case Aborted => o := Aborted;
      case Fine(m) => o := Fine((child.value, m));
    }
  }

  method ReadAlts(st: BufferReadStream, name: seq<byte>, deque: Deque, parent: nat)
    returns (o: Outcome<seq<Element>>, ids: seq<nat>)
    requires st.Valid()
    modifies st, deque
    ensures st.Valid() && Agrees(o, ParseAlts(old(st.Rest()), name), st.Rest())
    ensures o.Fine? ==> GrewToFinal(old(deque.nodes), deque.nodes, TreesOf(o.value), parent, ids)
    decreases |st.Rest()|, 1
  {
    var children: seq<Element> := [];
    ids := [];
    PrependNone(ParseAlts(st.Rest(), name));
    NoneGrown(deque.nodes, Some(parent));
    while true
      invariant st.Valid() && |st.Rest()| <= |old(st.Rest())|
      invariant ParseAlts(old(st.Rest()), name) == Prepend(children, ParseAlts(st.Rest(), name))
      invariant GrewAll(old(deque.nodes), deque.nodes, TreesOf(children), Some(parent), ids)
      decreases |st.Rest()|
    {
      var at := |deque.nodes|;
      ghost var mid := deque.nodes;
      var child := ReadType(st, name, deque, Some(parent));
      if child.Threw? { return Threw, ids; }
      if child.Aborted? { return Aborted, ids; }
      if child.value.kind == FINAL {
        assert children + [] == children;
        GrewByFinal(old(deque.nodes), mid, deque.nodes, TreesOf(children), child.value, parent, ids);
        return Fine(children), ids;
      }
      PrependOne(children, child.value, ParseAlts(st.Rest(), name));
      GrewByChild(old(deque.nodes), mid, deque.nodes, children, child.value, parent, ids);
      children, ids := children + [child.value], ids + [at];
    }
  }
}
