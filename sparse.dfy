/**
 * The "sparse array" of sparse.c / sparse.h: a singly linked list of nodes
 * tagged with byte indices, kept in ascending index order and always headed
 * by a node with index 0. Looking up an index that is not there inserts a
 * node for it, holding a null item, at its place in the order.
 *
 * The list is modelled by the sequence of its nodes in list order; a node's
 * `item` is `None` for a null pointer. The C function returns a pointer to
 * the node's item field; here it returns the node's position in the list,
 * and `SetItem` writes through that position.
 */
module SparseList {

  type byte = x: int | 0 <= x < 256

  datatype Option<T> = None | Some(value: T)

  /** `struct sparse` without its `next` pointer. */
  datatype Node<T> = Node(ix: byte, item: Option<T>)

  /** Indices strictly ascending along the list. */
  predicate Ascending<T>(s: seq<Node<T>>)
  {
    forall i, j :: 0 <= i < j < |s| ==> s[i].ix < s[j].ix
  }

  /** What every sparse satisfies: a head node with index 0, indices ascending. */
  predicate SparseValid<T>(s: seq<Node<T>>)
  {
    |s| > 0 && s[0].ix == 0 && Ascending(s)
  }

  predicate HasIndex<T>(s: seq<Node<T>>, ix: byte)
  {
    exists i :: 0 <= i < |s| && s[i].ix == ix
  }

  /** `sparse_new`: a single node with index 0 and a null item. */
  function NewSparse<T>(): (s: seq<Node<T>>)
    ensures SparseValid(s) && |s| == 1 && s[0] == Node(0, None)
  {
    [Node(0, None)]
  }

  /**
   * Where the walk of `sparse_at` stops: at the first node whose index is not
   * below ix, or at the end of the list.
   */
  function Stop<T>(s: seq<Node<T>>, ix: byte): (p: nat)
    ensures p <= |s|
    ensures forall i :: 0 <= i < p ==> s[i].ix < ix
    ensures p < |s| ==> s[p].ix >= ix
  {
    if s == [] || s[0].ix >= ix then 0 else 1 + Stop(s[1..], ix)
  }

  /**
   * `sparse_at` on values: the list afterwards and the position of the node
   * with index ix. A missing node is spliced in where the walk stopped.
   */
  function AtOf<T>(s: seq<Node<T>>, ix: byte): (seq<Node<T>>, nat)
  {
    var p := Stop(s, ix);
    if p < |s| && s[p].ix == ix then (s, p)
    else (s[..p] + [Node(ix, None)] + s[p..], p)
  }

  /** Writing an item through the slot `sparse_at` returned. */
  function SetItem<T>(s: seq<Node<T>>, pos: nat, item: T): (r: seq<Node<T>>)
    requires pos < |s|
    ensures |r| == |s| && r[pos] == Node(s[pos].ix, Some(item))
    ensures forall i :: 0 <= i < |s| && i != pos ==> r[i] == s[i]
  {
    s[pos := Node(s[pos].ix, Some(item))]
  }

  /** The non-null items in list order: what `sparse_free` hands to free_item. */
  function Items<T>(s: seq<Node<T>>): seq<T>
  {
    if s == [] then []
    else (if s[0].item.Some? then [s[0].item.value] else []) + Items(s[1..])
  }

  /** The item stored under index ix, if there is a node for it. */
  function Lookup<T>(s: seq<Node<T>>, ix: byte): Option<T>
  {
    if s == [] then None
    else if s[0].ix == ix then s[0].item
    else Lookup(s[1..], ix)
  }

  /* ---------------------------------------------------------------------- */

  /**
   * After `sparse_at(s, ix)` the list is still a valid sparse, it has a node
   * with index ix at the returned position, and the head is the same node.
   */
  lemma AtValid<T>(s: seq<Node<T>>, ix: byte)
    requires SparseValid(s)
    ensures var (r, p) := AtOf(s, ix);
      SparseValid(r) && p < |r| && r[p].ix == ix && r[0] == s[0]
  {
    var p := Stop(s, ix);
    if !(p < |s| && s[p].ix == ix) {
      var r := s[..p] + [Node(ix, None)] + s[p..];
      assert p > 0;
      InsertAscending(s, p, ix);
      assert r[0] == s[0];
    }
  }

  lemma InsertAscending<T>(s: seq<Node<T>>, p: nat, ix: byte)
    requires Ascending(s) && p <= |s|
    requires forall i :: 0 <= i < p ==> s[i].ix < ix
    requires p < |s| ==> s[p].ix > ix
    ensures Ascending(s[..p] + [Node(ix, None)] + s[p..])
  {
    var r := s[..p] + [Node(ix, None)] + s[p..];
    forall i, j | 0 <= i < j < |r|
      ensures r[i].ix < r[j].ix
    {
      if j < p {
        assert r[i] == s[i] && r[j] == s[j];
      } else if j == p {
        assert r[i] == s[i];
      } else if i == p {
        assert r[j] == s[j - 1];
      } else if i < p {
        assert r[i] == s[i] && r[j] == s[j - 1];
      } else {
        assert r[i] == s[i - 1] && r[j] == s[j - 1];
      }
    }
  }

  /** With the index present, `sparse_at` changes nothing and finds that node. */
  lemma AtPresent<T>(s: seq<Node<T>>, ix: byte, k: nat)
    requires SparseValid(s) && k < |s| && s[k].ix == ix
    ensures AtOf(s, ix) == (s, k)
  {
  }

  /**
   * With the index absent, `sparse_at` inserts exactly one node, with that
   * index and a null item, and every other node keeps its place in the order.
   */
  lemma AtAbsent<T>(s: seq<Node<T>>, ix: byte)
    requires SparseValid(s) && !HasIndex(s, ix)
    ensures var (r, p) := AtOf(s, ix);
      && |r| == |s| + 1 && r[p] == Node(ix, None)
      && r[..p] == s[..p] && r[p + 1..] == s[p..]
  {
    var p := Stop(s, ix);
    assert !(p < |s| && s[p].ix == ix);
    var r := s[..p] + [Node(ix, None)] + s[p..];
    assert r[p + 1..] == s[p..];
  }

  /**
   * The slot `sparse_at` returns holds the item stored under ix before the
   * call, or null when there was none; when there was one the list is unchanged.
   */
  lemma AtFinds<T>(s: seq<Node<T>>, ix: byte)
    requires SparseValid(s)
    ensures var (r, p) := AtOf(s, ix);
      && SparseValid(r) && p < |r| && r[p].ix == ix && r[p].item == Lookup(s, ix)
      && (Lookup(s, ix).Some? ==> r == s)
  {
    AtValid(s, ix);
    if HasIndex(s, ix) {
      var k :| 0 <= k < |s| && s[k].ix == ix;
      AtPresent(s, ix, k);
      LookupFind(s, ix, k);
    } else {
      AtAbsent(s, ix);
      LookupAbsent(s, ix);
    }
  }

  lemma {:induction false} LookupAbsent<T>(s: seq<Node<T>>, ix: byte)
    requires !HasIndex(s, ix)
    ensures Lookup(s, ix) == None
  {
    if s != [] {
      assert forall i :: 0 <= i < |s[1..]| ==> s[1..][i] == s[i + 1];
      LookupAbsent(s[1..], ix);
    }
  }

  /** Writing through a slot keeps every index, so the list stays valid. */
  lemma SetItemValid<T>(s: seq<Node<T>>, pos: nat, item: T)
    requires SparseValid(s) && pos < |s|
    ensures SparseValid(SetItem(s, pos, item))
  {
    var r := SetItem(s, pos, item);
    assert forall i :: 0 <= i < |s| ==> r[i].ix == s[i].ix;
  }

  /** In a valid sparse each index names at most one node. */
  lemma IndexUnique<T>(s: seq<Node<T>>, i: nat, j: nat)
    requires Ascending(s) && i < |s| && j < |s| && s[i].ix == s[j].ix
    ensures i == j
  {
  }

  /** The item a lookup finds after `sparse_at` and a write through its slot. */
  lemma LookupAfterSet<T>(s: seq<Node<T>>, ix: byte, item: T, other: byte)
    requires SparseValid(s)
    ensures var (r, p) := AtOf(s, ix);
      Lookup(SetItem(r, p, item), other) == if other == ix then Some(item) else Lookup(s, other)
  {
    var (r, p) := AtOf(s, ix);
    AtValid(s, ix);
    var t := SetItem(r, p, item);
    LookupFind(t, ix, p);
    if other != ix {
      LookupSkip(r, p, item, other);
      if HasIndex(s, ix) {
        var k :| 0 <= k < |s| && s[k].ix == ix;
        AtPresent(s, ix, k);
      } else {
        AtAbsent(s, ix);
        LookupInserted(s, ix, other);
      }
    }
  }

  lemma {:induction false} LookupFind<T>(s: seq<Node<T>>, ix: byte, k: nat)
    requires Ascending(s) && k < |s| && s[k].ix == ix
    ensures Lookup(s, ix) == s[k].item
  {
    if k > 0 {
      assert s[0].ix < s[k].ix;
      LookupFind(s[1..], ix, k - 1);
    }
  }

  lemma {:induction false} LookupSkip<T>(s: seq<Node<T>>, p: nat, item: T, other: byte)
    requires p < |s| && s[p].ix != other
    ensures Lookup(SetItem(s, p, item), other) == Lookup(s, other)
  {
    if s[0].ix != other && p > 0 {
      assert SetItem(s, p, item)[1..] == SetItem(s[1..], p - 1, item);
      LookupSkip(s[1..], p - 1, item, other);
    }
  }

  lemma {:induction false} LookupInserted<T>(s: seq<Node<T>>, ix: byte, other: byte)
    requires other != ix
    ensures var p := Stop(s, ix);
      Lookup(s[..p] + [Node(ix, None)] + s[p..], other) == Lookup(s, other)
  {
    var p := Stop(s, ix);
    if p == 0 {
      assert (s[..0] + [Node(ix, None)] + s[0..])[1..] == s;
    } else {
      var r := s[..p] + [Node(ix, None)] + s[p..];
      assert r[0] == s[0];
      if s[0].ix != other {
        assert Stop(s[1..], ix) == p - 1;
        assert r[1..] == s[1..][..p - 1] + [Node(ix, None)] + s[1..][p - 1..];
        LookupInserted(s[1..], ix, other);
      }
    }
  }

  /**
   * What `sparse_free` hands to free_item: an item is freed exactly when some
   * node holds it, and there is one call per node holding an item.
   */
  lemma {:induction false} ItemsMembers<T>(s: seq<Node<T>>, x: T)
    ensures x in Items(s) <==> exists i :: 0 <= i < |s| && s[i].item == Some(x)
  {
    if s != [] {
      ItemsMembers(s[1..], x);
      if x in Items(s[1..]) {
        var i :| 0 <= i < |s[1..]| && s[1..][i].item == Some(x);
        assert s[i + 1].item == Some(x);
      }
      if exists i :: 0 <= i < |s| && s[i].item == Some(x) {
        var i :| 0 <= i < |s| && s[i].item == Some(x);
        if i > 0 {
          assert s[1..][i - 1].item == Some(x);
        }
      }
    }
  }

  lemma {:induction false} ItemsCount<T>(s: seq<Node<T>>)
    ensures |Items(s)| == Holding(s)
  {
    if s != [] {
      ItemsCount(s[1..]);
    }
  }

  /** The number of nodes holding a non-null item. */
  function Holding<T>(s: seq<Node<T>>): (n: nat)
    ensures n <= |s|
  {
    if s == [] then 0 else (if s[0].item.Some? then 1 else 0) + Holding(s[1..])
  }

  /* ---------------------------------------------------------------------- */

  /** `sparse`, as the sequence of its nodes. */
  class Sparse<T> {
    var nodes: seq<Node<T>>

    ghost predicate Valid()
      reads this
    {
      SparseValid(nodes)
    }

    /** `sparse_new` */
    constructor ()
      ensures Valid() && nodes == NewSparse()
    {
      nodes := [Node(0, None)];
    }

    /**
     * `sparse_at`: walk while the next node's index is below ix; insert a node
     * for ix there unless the walk stopped on it; return its position.
     */
    method At(ix: byte) returns (pos: nat)
      requires Valid()
      modifies this
      ensures (nodes, pos) == AtOf(old(nodes), ix)
      ensures Valid() && pos < |nodes| && nodes[pos].ix == ix
    {
      AtValid(nodes, ix);
      var s := 0;
      while s < |nodes| && nodes[s].ix < ix
        invariant 0 <= s <= |nodes| && s <= Stop(nodes, ix)
        invariant forall i :: 0 <= i < s ==> nodes[i].ix < ix
      {
        s := s + 1;
      }
      assert s == Stop(nodes, ix);
      if s == |nodes| || nodes[s].ix > ix {
        nodes := nodes[..s] + [Node(ix, None)] + nodes[s..];
      }
      pos := s;
    }

    /** `*sparse_at(s, ix) = item`, through the position `At` returned. */
    method Store(pos: nat, item: T)
      requires Valid() && pos < |nodes|
      modifies this
      ensures nodes == SetItem(old(nodes), pos, item) && Valid()
    {
      nodes := nodes[pos := Node(nodes[pos].ix, Some(item))];
    }

    /**
     * `sparse_free`: walk the list, handing every non-null item to free_item,
     * and release the nodes. The items handed over are returned, in order.
     */
    method Free() returns (freed: seq<T>)
      modifies this
      ensures freed == Items(old(nodes)) && nodes == []
    {
      freed := [];
      var s := 0;
      while s < |nodes|
        invariant 0 <= s <= |nodes|
        invariant freed + Items(nodes[s..]) == Items(nodes)
      {
        assert nodes[s..][1..] == nodes[s + 1..];
        if nodes[s].item.Some? {
          freed := freed + [nodes[s].item.value];
        }
        s := s + 1;
      }
      assert nodes[s..] == [];
      nodes := [];
    }
  }
}
