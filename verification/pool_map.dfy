/** A map in a fixed array, searched from its start; elements never move. */
module PoolMap {
  import opened Bytes

  datatype Node<V> = Node(key: seq<byte>, value: V)

  /** std::less on strings. */
  predicate Less(a: seq<byte>, b: seq<byte>) {
    if b == [] then false
    else if a == [] then true
    else a[0] < b[0] || (a[0] == b[0] && Less(a[1..], b[1..]))
  }

  /** Neither less than the other: that is equality. */
  lemma {:induction false} EquivalentIsEqual(a: seq<byte>, b: seq<byte>)
    ensures !Less(a, b) && !Less(b, a) <==> a == b
    decreases a
  {
    if a != [] && b != [] {
      EquivalentIsEqual(a[1..], b[1..]);
      assert a == [a[0]] + a[1..] && b == [b[0]] + b[1..];
    }
  }

  /** Where a key is, or the number of nodes. */
  function IndexOf<V>(nodes: seq<Node<V>>, key: seq<byte>): (i: nat)
    ensures i <= |nodes| && (i < |nodes| ==> nodes[i].key == key)
    ensures forall j :: 0 <= j < i ==> nodes[j].key != key
  {
    if nodes == [] || nodes[0].key == key then 0 else 1 + IndexOf(nodes[1..], key)
  }

  /** No key occurs twice. */
  predicate Distinct<V>(nodes: seq<Node<V>>) {
    forall i, j :: 0 <= i < j < |nodes| ==> nodes[i].key != nodes[j].key
  }

  lemma IndexOfIs<V>(nodes: seq<Node<V>>, key: seq<byte>, i: nat)
    requires i <= |nodes| && (i < |nodes| ==> nodes[i].key == key) && forall j :: 0 <= j < i ==> nodes[j].key != key
    ensures IndexOf(nodes, key) == i
  {
  }

  class Map<V(0)> {
    const data: array<Node<V>>
    var size: nat

    ghost predicate Valid()
      reads this, data
    {
      size <= data.Length && Distinct(data[..size])
    }

    ghost function Nodes(): (nodes: seq<Node<V>>)
      reads this, data
      requires size <= data.Length
    {
      data[..size]
    }

    constructor (maxElements: nat, default: V)
      ensures Valid() && fresh(data) && Nodes() == [] && data.Length == maxElements
    {
      data := new Node<V>[maxElements](_ => Node([], default));
      size := 0;
    }

    method Find(key: seq<byte>) returns (it: nat)
      requires Valid()
      ensures it == IndexOf(Nodes(), key)
    {
      it := 0;
      while it != size
        invariant it <= size && forall j :: 0 <= j < it ==> data[j].key != key
      {
        EquivalentIsEqual(data[it].key, key);
        if !Less(data[it].key, key) && !Less(key, data[it].key) {
          break;
        }
        it := it + 1;
      }
      IndexOfIs(Nodes(), key, it);
    }

    method Contains(key: seq<byte>) returns (r: bool)
      requires Valid()
      ensures r <==> exists i :: 0 <= i < |Nodes()| && Nodes()[i].key == key
    {
      var it := Find(key);
      assert it < size ==> Nodes()[it].key == key;
      r := it != size;
    }

    /** A key that is there already is left as it is; a new one goes to the end.  `None` is the failed assertion of a
        full map. */
    method Insert(node: Node<V>) returns (r: Option<(nat, bool)>)
      requires Valid()
      modifies this`size, data
      ensures Valid()
      ensures
        var was := old(Nodes());
        var i := IndexOf(was, node.key);
        if i < |was| then r == Some((i, false)) && Nodes() == was
        else if |was| == data.Length then r == None && Nodes() == was
        else r == Some((i, true)) && Nodes() == was + [node]
    {
      var it := Find(node.key);
      if it != size {
        return Some((it, false));
      }
      if it >= data.Length {
        return None;
      }
      size := size + 1;
      data[it] := node;
      r := Some((it, true));
    }

    /** The value at a position, through an iterator. */
    method SetValue(i: nat, value: V)
      requires Valid() && i < size
      modifies data
      ensures Valid() && size == old(size)
      ensures Nodes() == old(Nodes())[i := Node(old(Nodes())[i].key, value)]
    {
      data[i] := Node(data[i].key, value);
    }
  }
}
