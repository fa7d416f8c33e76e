/** The parser's elements where it keeps them: one after the other in a deque, linked by their positions. */
module ElementDeque {
  import opened Bytes
  import opened SchemaParser

  /** An element as the parser stores it: where it sits in the deque is its identity.  The parent is stored first. */
  datatype Node = Node(element: Element, parent: Option<nat>, children: seq<nat>, fields: seq<nat>)

  /** The element and what a traversal should descend into: its children, or else its fields.  An object and a union
      also leave a final element behind in the deque that no one links to. */
  datatype Tree = Tree(element: Element, kids: seq<Tree>, hasFinal: bool)

  function TreeOf(e: Element): Tree
    decreases e, 0
  {
    Tree(e, if e.children != [] then TreesOf(e.children) else TreesOfFields(e.fields), e.kind == 16 || e.kind == 21)
  }

  function TreesOf(es: seq<Element>): (ts: seq<Tree>)
    ensures |ts| == |es|
    decreases es, 0
  {
    if es == [] then [] else [TreeOf(es[0])] + TreesOf(es[1..])
  }

  function TreesOfFields(fields: seq<ElementField>): (ts: seq<Tree>)
    ensures |ts| == |fields|
    decreases fields, 0
  {
    if fields == [] then [] else [TreeOf(fields[0].element)] + TreesOfFields(fields[1..])
  }

  lemma {:induction false} TreesOfSnoc(es: seq<Element>, e: Element)
    ensures TreesOf(es + [e]) == TreesOf(es) + [TreeOf(e)]
    decreases |es|
  {
    if es == [] {
      assert [] + [e] == [e] && [e][1..] == [];
    } else {
      assert (es + [e])[1..] == es[1..] + [e];
      TreesOfSnoc(es[1..], e);
    }
  }

  lemma {:induction false} TreesOfFieldsSnoc(fields: seq<ElementField>, f: ElementField)
    ensures TreesOfFields(fields + [f]) == TreesOfFields(fields) + [TreeOf(f.element)]
    decreases |fields|
  {
    if fields == [] {
      assert [] + [f] == [f] && [f][1..] == [];
    } else {
      assert (fields + [f])[1..] == fields[1..] + [f];
      TreesOfFieldsSnoc(fields[1..], f);
    }
  }

  /** How many places a tree takes, its final elements included. */
  function Width(t: Tree): (n: nat)
    ensures n > 0
    decreases t, 0
  {
    1 + WidthAll(t.kids) + (if t.hasFinal then 1 else 0)
  }

  function WidthAll(ts: seq<Tree>): nat
    decreases ts, 0
  {
    if ts == [] then 0 else Width(ts[0]) + WidthAll(ts[1..])
  }

  /** Where consecutive trees start. */
  function Starts(ts: seq<Tree>, at: nat): (ids: seq<nat>)
    ensures |ids| == |ts|
    ensures forall k :: 0 <= k < |ids| ==> ids[k] >= at
    ensures forall j, k :: 0 <= j < k < |ids| ==> ids[j] < ids[k]
  {
    if ts == [] then [] else [at] + Starts(ts[1..], at + Width(ts[0]))
  }

  function NodeOf(t: Tree, at: nat, parent: Option<nat>): Node {
    var ids := Starts(t.kids, at + 1);
    if t.element.children != [] then Node(t.element, parent, ids, []) else Node(t.element, parent, [], ids)
  }

  ghost predicate IsFinal(n: Node, parent: nat) {
    n.element.kind == FINAL && n.parent == Some(parent) && n.children == [] && n.fields == []
  }

  /** The deque holds a tree from `at` on: the element itself, then everything under it in order, then the final element
      if there is one. */
  ghost predicate Placed(arena: seq<Node>, t: Tree, at: nat, parent: Option<nat>)
    decreases t, 0
  {
    && at + Width(t) <= |arena| && arena[at] == NodeOf(t, at, parent) && PlacedAll(arena, t.kids, at + 1, Some(at))
    && (t.hasFinal ==> IsFinal(arena[at + 1 + WidthAll(t.kids)], at))
  }

  ghost predicate PlacedAll(arena: seq<Node>, ts: seq<Tree>, at: nat, parent: Option<nat>)
    decreases ts, 0
  {
    ts != [] ==> Placed(arena, ts[0], at, parent) && PlacedAll(arena, ts[1..], at + Width(ts[0]), parent)
  }

  // ----- filling it

  /** What lies outside a tree's places does not matter. */
  lemma {:induction false} PlacedStays(a: seq<Node>, b: seq<Node>, t: Tree, at: nat, parent: Option<nat>)
    requires Placed(a, t, at, parent) && at + Width(t) <= |b|
    requires forall i :: at <= i < at + Width(t) ==> a[i] == b[i]
    ensures Placed(b, t, at, parent)
    decreases t, 0
  {
    PlacedAllStay(a, b, t.kids, at + 1, Some(at));
  }

  lemma {:induction false} PlacedAllStay(a: seq<Node>, b: seq<Node>, ts: seq<Tree>, at: nat, parent: Option<nat>)
    requires PlacedAll(a, ts, at, parent) && at + WidthAll(ts) <= |a| && at + WidthAll(ts) <= |b|
    requires forall i :: at <= i < at + WidthAll(ts) ==> a[i] == b[i]
    ensures PlacedAll(b, ts, at, parent)
    decreases ts, 0
  {
    if ts != [] {
      PlacedStays(a, b, ts[0], at, parent);
      PlacedAllStay(a, b, ts[1..], at + Width(ts[0]), parent);
    }
  }

  lemma {:induction false} StartsSnoc(ts: seq<Tree>, t: Tree, at: nat)
    ensures WidthAll(ts + [t]) == WidthAll(ts) + Width(t)
    ensures Starts(ts + [t], at) == Starts(ts, at) + [at + WidthAll(ts)]
    decreases |ts|
  {
    if ts == [] {
      assert [] + [t] == [t] && [t][1..] == [];
    } else {
      assert (ts + [t])[1..] == ts[1..] + [t];
      StartsSnoc(ts[1..], t, at + Width(ts[0]));
    }
  }

  lemma {:induction false} PlacedSnoc(arena: seq<Node>, ts: seq<Tree>, t: Tree, at: nat, parent: Option<nat>,
                                      all: seq<Tree>)
    requires PlacedAll(arena, ts, at, parent) && Placed(arena, t, at + WidthAll(ts), parent) && all == ts + [t]
    ensures PlacedAll(arena, all, at, parent)
    decreases |ts|
  {
    if ts == [] {
      assert all[0] == t && all[1..] == [];
    } else {
      assert all[0] == ts[0];
      PlacedSnoc(arena, ts[1..], t, at + Width(ts[0]), parent, all[1..]);
    }
  }

  /** A deque grown by one tree. */
  ghost predicate Grew(was: seq<Node>, now: seq<Node>, t: Tree, parent: Option<nat>) {
    was <= now && |now| == |was| + Width(t) && Placed(now, t, |was|, parent)
  }

  /** Grown by several, which start at `ids`. */
  ghost predicate GrewAll(was: seq<Node>, now: seq<Node>, ts: seq<Tree>, parent: Option<nat>, ids: seq<nat>) {
    was <= now && |now| == |was| + WidthAll(ts) && PlacedAll(now, ts, |was|, parent) && ids == Starts(ts, |was|)
  }

  lemma GrewByOneMore(was: seq<Node>, mid: seq<Node>, now: seq<Node>, ts: seq<Tree>, t: Tree, parent: Option<nat>,
                      ids: seq<nat>)
    requires GrewAll(was, mid, ts, parent, ids) && Grew(mid, now, t, parent)
    ensures GrewAll(was, now, ts + [t], parent, ids + [|mid|])
  {
    PlacedAllStay(mid, now, ts, |was|, parent);
    PlacedSnoc(now, ts, t, |was|, parent, ts + [t]);
    StartsSnoc(ts, t, |was|);
  }

  lemma GrewByField(was: seq<Node>, mid: seq<Node>, now: seq<Node>, fields: seq<ElementField>, f: ElementField,
                    parent: nat, ids: seq<nat>)
    requires GrewAll(was, mid, TreesOfFields(fields), Some(parent), ids) && Grew(mid, now, TreeOf(f.element), Some(parent))
    ensures GrewAll(was, now, TreesOfFields(fields + [f]), Some(parent), ids + [|mid|])
  {
    GrewByOneMore(was, mid, now, TreesOfFields(fields), TreeOf(f.element), Some(parent), ids);
    TreesOfFieldsSnoc(fields, f);
  }

  lemma GrewByChild(was: seq<Node>, mid: seq<Node>, now: seq<Node>, es: seq<Element>, e: Element, parent: nat,
                    ids: seq<nat>)
    requires GrewAll(was, mid, TreesOf(es), Some(parent), ids) && Grew(mid, now, TreeOf(e), Some(parent))
    ensures GrewAll(was, now, TreesOf(es + [e]), Some(parent), ids + [|mid|])
  {
    GrewByOneMore(was, mid, now, TreesOf(es), TreeOf(e), Some(parent), ids);
    TreesOfSnoc(es, e);
  }

  /** A leaf with the final type. */
  ghost predicate IsFinalLeaf(e: Element) {
    e.kind == FINAL && e.children == [] && e.fields == []
  }

  /** Grown by several and a final element behind them. */
  ghost predicate GrewToFinal(was: seq<Node>, now: seq<Node>, ts: seq<Tree>, parent: nat, ids: seq<nat>) {
    && was <= now && |now| == |was| + WidthAll(ts) + 1 && PlacedAll(now, ts, |was|, Some(parent)) && ids == Starts(ts, |was|)
    && IsFinal(now[|now| - 1], parent)
  }

  lemma GrewByFinal(was: seq<Node>, mid: seq<Node>, now: seq<Node>, ts: seq<Tree>, e: Element, parent: nat,
                    ids: seq<nat>)
    requires GrewAll(was, mid, ts, Some(parent), ids) && Grew(mid, now, TreeOf(e), Some(parent)) && IsFinalLeaf(e)
    ensures GrewToFinal(was, now, ts, parent, ids)
  {
    PlacedAllStay(mid, now, ts, |was|, Some(parent));
    assert now[|mid|] == NodeOf(TreeOf(e), |mid|, Some(parent));
  }

  lemma NoneGrown(now: seq<Node>, parent: Option<nat>)
    ensures GrewAll(now, now, [], parent, [])
  {
  }

  lemma {:induction false} OneGrown(was: seq<Node>, now: seq<Node>, e: Element, parent: nat)
    requires Grew(was, now, TreeOf(e), Some(parent))
    ensures GrewAll(was, now, TreesOf([e]), Some(parent), [|was|])
  {
    assert [e][1..] == [];
    assert TreesOf([e]) == [TreeOf(e)];
    assert [TreeOf(e)][1..] == [];
  }

  /** An element filled in where its place was kept, its parts being there. */
  lemma FilledIn(was: seq<Node>, kept: seq<Node>, now: seq<Node>, e: Element, parent: Option<nat>, ids: seq<nat>)
    requires |kept| == |was| + 1 && was <= kept
    requires if TreeOf(e).hasFinal then GrewToFinal(kept, now, TreeOf(e).kids, |was|, ids)
             else GrewAll(kept, now, TreeOf(e).kids, Some(|was|), ids)
    requires e.children == [] || e.fields == []
    ensures |was| < |now|
    ensures e.kind == 16 && e.children == [] ==> Grew(was, now[|was| := Node(e, parent, [], ids)], TreeOf(e), parent)
    ensures e.kind != 16 && e.fields == [] ==> Grew(was, now[|was| := Node(e, parent, ids, [])], TreeOf(e), parent)
  {
    var t := TreeOf(e);
    var node := NodeOf(t, |was|, parent);
    var filled := now[|was| := node];
    PlacedAllStay(now, filled, t.kids, |was| + 1, Some(|was|));
    assert forall i :: 0 <= i < |was| ==> filled[i] == now[i] == kept[i] == was[i];
    assert Grew(was, filled, t, parent);
  }

  class Deque {
    var nodes: seq<Node>

    constructor ()
      ensures nodes == []
    {
      nodes := [];
    }

    method PushBack(n: Node)
      modifies this
      ensures nodes == old(nodes) + [n]
    {
      nodes := nodes + [n];
    }
  }
}
