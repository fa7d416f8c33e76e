/** Walking the parsed elements through their parent links. */
module Traversal {
  import opened Bytes
  import opened SchemaParser
  import opened SchemaReader
  import opened ElementDeque
  import opened Streams
  import BinaryFormat

  /** The elements, each container before its parts. */
  function Preorder(t: Tree): (es: seq<Element>)
    ensures es != []
    decreases t, 0
  {
    [t.element] + PreorderAll(t.kids)
  }

  function PreorderAll(ts: seq<Tree>): seq<Element>
    decreases ts, 0
  {
    if ts == [] then [] else Preorder(ts[0]) + PreorderAll(ts[1..])
  }

  /** The visiting order, as positions. */
  function Order(t: Tree, at: nat): (ids: seq<nat>)
    ensures |ids| == |Preorder(t)| && ids[0] == at
    decreases t, 0
  {
    [at] + OrderAll(t.kids, at + 1)
  }

  function OrderAll(ts: seq<Tree>, at: nat): (ids: seq<nat>)
    ensures |ids| == |PreorderAll(ts)|
    decreases ts, 0
  {
    if ts == [] then [] else Order(ts[0], at) + OrderAll(ts[1..], at + Width(ts[0]))
  }

  // ----- the walk

  /** Every parent is stored before the element, and lists it. */
  ghost predicate Linked(arena: seq<Node>, i: nat) {
    i < |arena| &&
    match arena[i].parent
    case None => true
    case Some(p) => p < i && i in Kids(arena[p])
  }

  function Kids(n: Node): seq<nat> {
    if n.children != [] then n.children else n.fields
  }

  /** Where std::find comes to a halt. */
  ghost function IndexIn(ids: seq<nat>, i: nat): (k: nat)
    requires i in ids
    ensures k < |ids| && ids[k] == i && i !in ids[..k]
  {
    FirstExists(ids, i);
    var k: nat :| k < |ids| && ids[k] == i && i !in ids[..k];
    k
  }

  lemma {:induction false} FirstExists(ids: seq<nat>, i: nat)
    requires i in ids
    ensures exists k: nat :: k < |ids| && ids[k] == i && i !in ids[..k]
  {
    if i in ids[..|ids| - 1] {
      var before := ids[..|ids| - 1];
      FirstExists(before, i);
      var k: nat :| k < |before| && before[k] == i && i !in before[..k];
      assert ids[..k] == before[..k];
    }
  }

  lemma FirstIs(ids: seq<nat>, i: nat, k: nat)
    requires k < |ids| && ids[k] == i && i !in ids[..k]
    ensures IndexIn(ids, i) == k
  {
  }

  /** Up the parents until one has a later sibling to offer. */
  ghost function Climb(arena: seq<Node>, i: nat): Option<nat>
    decreases i
  {
    if !Linked(arena, i) || arena[i].parent == None then None
    else
      var p := arena[i].parent.value;
      var ids := Kids(arena[p]);
      var k := IndexIn(ids, i);
      if k + 1 < |ids| then Some(ids[k + 1]) else Climb(arena, p)
  }

  ghost function Next(arena: seq<Node>, i: nat): Option<nat>
    requires i < |arena|
  {
    var ids := Kids(arena[i]);
    if ids != [] then Some(ids[0]) else Climb(arena, i)
  }

  /** Every element on the way up from `i` is linked. */
  ghost predicate LinkedUp(arena: seq<Node>, i: nat)
    decreases i
  {
    Linked(arena, i) && (arena[i].parent.Some? ==> LinkedUp(arena, arena[i].parent.value))
  }

  /** BinarySchemaParser::Impl::NextElement. */
  method NextElement(arena: seq<Node>, element: nat) returns (r: Option<nat>)
    requires LinkedUp(arena, element)
    ensures r == Next(arena, element)
  {
    if arena[element].children != [] {
      return Some(arena[element].children[0]);
    } else if arena[element].fields != [] {
      return Some(arena[element].fields[0]);
    }
    var child, parent := element, element;
    while arena[parent].parent.Some?
      invariant LinkedUp(arena, parent) && Climb(arena, element) == Climb(arena, parent)
      decreases parent
    {
      child := parent;
      parent := arena[parent].parent.value;
      if arena[parent].children != [] {
        var it := Find(arena[parent].children, child);
        assert it != |arena[parent].children|;
        it := it + 1;
        if it == |arena[parent].children| {
          continue;
        }
        return Some(arena[parent].children[it]);
      } else if arena[parent].fields != [] {
        var it := Find(arena[parent].fields, child);
        assert it != |arena[parent].fields|;
        it := it + 1;
        if it == |arena[parent].fields| {
          continue;
        }
        return Some(arena[parent].fields[it]);
      }
    }
    r := None;
  }

  /** std::find. */
  method Find(ids: seq<nat>, i: nat) returns (it: nat)
    ensures it <= |ids|
    ensures i in ids ==> it == IndexIn(ids, i)
    ensures i !in ids ==> it == |ids|
  {
    it := 0;
    while it < |ids|
      invariant it <= |ids| && i !in ids[..it]
    {
      if ids[it] == i {
        FirstIs(ids, i, it);
        return;
      }
      it := it + 1;
    }
    assert ids[..|ids|] == ids;
  }

  // ----- the walk is the traversal

  /** From each of the positions `ids`, which hold `es`, the step is to the one after, and from the last to `out`. */
  ghost predicate Steps(arena: seq<Node>, ids: seq<nat>, es: seq<Element>, out: Option<nat>) {
    |ids| == |es| && forall i: nat :: i < |ids| ==> StepAt(arena, ids, es, i, out)
  }

  ghost predicate StepAt(arena: seq<Node>, ids: seq<nat>, es: seq<Element>, i: nat, out: Option<nat>)
    requires i < |ids| == |es|
  {
    && ids[i] < |arena| && LinkedUp(arena, ids[i])
    && Next(arena, ids[i]) == (if i + 1 < |ids| then Some(ids[i + 1]) else out)
    && arena[ids[i]].element == es[i]
  }

  /** One walk after another, when the first leads to the second. */
  lemma StepsConcat(arena: seq<Node>, first: seq<nat>, later: seq<nat>, es: seq<Element>, rest: seq<Element>,
                    over: Option<nat>, out: Option<nat>)
    requires Steps(arena, first, es, over) && Steps(arena, later, rest, out)
    requires over == if later != [] then Some(later[0]) else out
    ensures Steps(arena, first + later, es + rest, out)
  {
    var ids, all := first + later, es + rest;
    forall i: nat | i < |ids| ensures StepAt(arena, ids, all, i, out) {
      if i < |first| {
        assert StepAt(arena, first, es, i, over);
      } else {
        assert StepAt(arena, later, rest, i - |first|, out);
      }
    }
  }

  /** Within tree `t` the steps are its traversal; from the last position it climbs out of the tree. */
  lemma {:induction false} NextWithin(arena: seq<Node>, t: Tree, at: nat, parent: Option<nat>)
    requires Placed(arena, t, at, parent) && LinkedUp(arena, at)
    ensures Steps(arena, Order(t, at), Preorder(t), Climb(arena, at))
    decreases t, 0
  {
    var ids, es := OrderAll(t.kids, at + 1), PreorderAll(t.kids);
    KidsAre(t, at, parent);
    assert Kids(arena[at])[0..] == Kids(arena[at]);
    NextAmong(arena, at, 0, t.kids, at + 1);
    FirstAmong(t.kids, at + 1);
    assert StepAt(arena, [at], [t.element], 0, Next(arena, at));
    StepsConcat(arena, [at], ids, [t.element], es, Next(arena, at), Climb(arena, at));
  }

  lemma FirstAmong(ts: seq<Tree>, at: nat)
    ensures if ts == [] then OrderAll(ts, at) == [] else OrderAll(ts, at) != [] && OrderAll(ts, at)[0] == at == Starts(ts, at)[0]
  {
  }

  lemma KidsAre(t: Tree, at: nat, parent: Option<nat>)
    ensures Kids(NodeOf(t, at, parent)) == Starts(t.kids, at + 1)
  {
  }

  /** The element at `at` lists increasing positions, the last of them the starts of the trees laid from `from` on. */
  ghost predicate Lists(arena: seq<Node>, at: nat, k: nat, ts: seq<Tree>, from: nat) {
    && at < |arena| && at < from && LinkedUp(arena, at)
    && k <= |Kids(arena[at])| && Kids(arena[at])[k..] == Starts(ts, from)
    && (forall i, j :: 0 <= i < j < |Kids(arena[at])| ==> Kids(arena[at])[i] < Kids(arena[at])[j])
  }

  /** The first of them climbs to its next sibling, or out of the parent. */
  lemma FirstListed(arena: seq<Node>, at: nat, k: nat, ts: seq<Tree>, from: nat, rest: seq<Tree>, after: nat)
    requires ts != [] && Lists(arena, at, k, ts, from) && PlacedAll(arena, ts, from, Some(at))
    requires rest == ts[1..] && after == from + Width(ts[0])
    ensures LinkedUp(arena, from) && Placed(arena, ts[0], from, Some(at))
    ensures Lists(arena, at, k + 1, rest, after) && PlacedAll(arena, rest, after, Some(at))
    ensures
      var later := OrderAll(rest, after);
      Climb(arena, from) == if later != [] then Some(later[0]) else Climb(arena, at)
  {
    FirstOf(Kids(arena[at]), k, ts, from);
    ClimbFrom(arena, at, k, from);
    LaterStarts(ts, from);
  }

  lemma FirstOf(ids: seq<nat>, k: nat, ts: seq<Tree>, from: nat)
    requires ts != [] && k <= |ids| && ids[k..] == Starts(ts, from)
    ensures k < |ids| && ids[k] == from && ids[k + 1..] == Starts(ts[1..], from + Width(ts[0]))
    ensures if |ts| > 1 then k + 1 < |ids| && ids[k + 1] == from + Width(ts[0]) else k + 1 == |ids|
  {
    assert ids[k] == ids[k..][0];
    assert ids[k + 1..] == ids[k..][1..];
    if |ts| > 1 {
      assert ids[k + 1] == ids[k + 1..][0];
    }
  }

  lemma ClimbFrom(arena: seq<Node>, at: nat, k: nat, from: nat)
    requires at < from < |arena| && LinkedUp(arena, at) && arena[from].parent == Some(at)
    requires k < |Kids(arena[at])| && Kids(arena[at])[k] == from
    requires forall i, j :: 0 <= i < j < |Kids(arena[at])| ==> Kids(arena[at])[i] < Kids(arena[at])[j]
    ensures LinkedUp(arena, from)
    ensures Climb(arena, from) == if k + 1 < |Kids(arena[at])| then Some(Kids(arena[at])[k + 1]) else Climb(arena, at)
  {
    IndexOfSorted(Kids(arena[at]), k);
    assert Linked(arena, from);
  }

  /** The same among sibling trees, the last of which climbs out of their parent. */
  lemma {:induction false} NextAmong(arena: seq<Node>, at: nat, k: nat, ts: seq<Tree>, from: nat)
    requires Lists(arena, at, k, ts, from) && PlacedAll(arena, ts, from, Some(at))
    ensures Steps(arena, OrderAll(ts, from), PreorderAll(ts), Climb(arena, at))
    decreases ts, 0
  {
    if ts != [] {
      var rest, after := ts[1..], from + Width(ts[0]);
      FirstListed(arena, at, k, ts, from, rest, after);
      NextWithin(arena, ts[0], from, Some(at));
      NextAmong(arena, at, k + 1, rest, after);
      StepsConcat(arena, Order(ts[0], from), OrderAll(rest, after), Preorder(ts[0]), PreorderAll(rest),
                  Climb(arena, from), Climb(arena, at));
    }
  }

  lemma LaterStarts(ts: seq<Tree>, from: nat)
    requires ts != []
    ensures
      var later := OrderAll(ts[1..], from + Width(ts[0]));
      if |ts| > 1 then later != [] && later[0] == from + Width(ts[0]) else later == []
  {
    FirstAmong(ts[1..], from + Width(ts[0]));
  }

  lemma IndexOfSorted(ids: seq<nat>, k: nat)
    requires k < |ids| && forall i, j :: 0 <= i < j < |ids| ==> ids[i] < ids[j]
    ensures ids[k] in ids && IndexIn(ids, ids[k]) == k
  {
  }

  /** Stepping from the root until there is no next element. */
  method Elements(arena: seq<Node>, ghost t: Tree) returns (visited: seq<Element>)
    requires Placed(arena, t, 0, None)
    ensures visited == Preorder(t)
  {
    ghost var ids := Order(t, 0);
    NextWithin(arena, t, 0, None);
    visited := [];
    var at := Some(0);
    while at != None
      invariant |visited| <= |ids| && visited == Preorder(t)[..|visited|]
      invariant at == if |visited| < |ids| then Some(ids[|visited|]) else None
      decreases |ids| - |visited|
    {
      assert StepAt(arena, ids, Preorder(t), |visited|, None);
      visited := visited + [arena[at.value].element];
      at := NextElement(arena, at.value);
    }
  }

  /** BinarySchemaParser, then its elements(): what is visited is the tree that the parser built, whatever the bytes. */
  method ParsedElements(schema: seq<byte>, name: seq<byte>) returns (o: Outcome<seq<Element>>)
    ensures match ParseType(schema, name)
            case Got(e, _) => o == Fine(Preorder(TreeOf(e)))
            case Short => o == Threw
            case Abort => o == Aborted
  {
    var st := new BufferReadStream(schema);
    var deque := new Deque();
    var root := ReadType(st, name, deque, None);
    match root {
      case Threw => o := Threw;
      case Aborted => o := Aborted;
      case Fine(e) =>
        var visited := Elements(deque.nodes, TreeOf(e));
        o := Fine(visited);
    }
  }

  /** For the bytes a writer emits that is the tree of the schema itself. */
  lemma EmittedElements(s: BinaryFormat.Schema, name: seq<byte>)
    requires BinaryFormat.WellFormed(s)
    ensures ParseType(BinaryFormat.Emit(s), name) == Got(ElementOf(s, name), [])
  {
    ParseAfterEmit(s, name, []);
    assert BinaryFormat.Emit(s) + [] == BinaryFormat.Emit(s);
  }

  // ----- every element once

  /** The positions visited strictly increase, so none is visited twice. */
  lemma {:induction false} OrderAscends(t: Tree, at: nat)
    ensures Within(Order(t, at), at, at + Width(t))
    decreases t, 0
  {
    OrderAllAscends(t.kids, at + 1);
  }

  ghost predicate Within(ids: seq<nat>, low: nat, high: nat) {
    && (forall i :: 0 <= i < |ids| ==> low <= ids[i] < high)
    && (forall i, j :: 0 <= i < j < |ids| ==> ids[i] < ids[j])
  }

  lemma {:induction false} OrderAllAscends(ts: seq<Tree>, at: nat)
    ensures Within(OrderAll(ts, at), at, at + WidthAll(ts))
    decreases ts, 0
  {
    if ts != [] {
      OrderAscends(ts[0], at);
      OrderAllAscends(ts[1..], at + Width(ts[0]));
    }
  }

  /** Every stored element is visited, but for the final ones. */
  lemma {:induction false} AllVisited(arena: seq<Node>, t: Tree, at: nat, parent: Option<nat>, i: nat)
    requires Placed(arena, t, at, parent) && at <= i < at + Width(t)
    ensures i in Order(t, at) || arena[i].element.kind == FINAL
    decreases t, 0
  {
    if at < i <= at + WidthAll(t.kids) {
      AllVisitedAmong(arena, t.kids, at + 1, Some(at), i);
    }
  }

  lemma {:induction false} AllVisitedAmong(arena: seq<Node>, ts: seq<Tree>, at: nat, parent: Option<nat>, i: nat)
    requires PlacedAll(arena, ts, at, parent) && at <= i < at + WidthAll(ts) <= |arena|
    ensures i in OrderAll(ts, at) || arena[i].element.kind == FINAL
    decreases ts, 0
  {
    if i < at + Width(ts[0]) {
      AllVisited(arena, ts[0], at, parent, i);
    } else {
      AllVisitedAmong(arena, ts[1..], at + Width(ts[0]), parent, i);
    }
  }
}
