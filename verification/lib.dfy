/** A singly linked list whose nodes are individually allocated and chained
    through `next` references (`DynamicLinkedList` in src/lib.rs).

    The Rust list owns a chain of boxed nodes; here a node is an object and a
    link is a nullable reference. A Rust cursor `&mut Option<Box<Node<T>>>`
    points at a link; it is modelled by the object that owns the link
    (`null` for the list's own `head` field, a node for that node's `next`
    field) together with the value currently stored in that link.
 */
module LinkedList {

  /** Rust's `usize` on a 64-bit target. */
  newtype usize = x: int | 0 <= x < 0x1_0000_0000_0000_0000

  /** One element of the chain (`Node<T>`). */
  class Node<T> {
    var data: T
    var next: Node?<T>

    constructor (data: T, next: Node?<T>)
      ensures this.data == data && this.next == next
    {
      this.data := data;
      this.next := next;
    }
  }

  /** The elements met by following `next` links from `n`, visiting each node
      of `nodes` at most once: the list as a reader who walks it sees it. */
  ghost function Chain<T>(n: Node?<T>, nodes: set<Node<T>>): (r: seq<T>)
    reads nodes
    ensures |r| <= |nodes|
    ensures r != [] ==> n != null && n in nodes && r[0] == n.data
    decreases nodes
  {
    if n == null || n !in nodes then [] else [n.data] + Chain(n.next, nodes - {n})
  }

  /** The nodes occurring in `s`. */
  ghost function NodeSet<T>(s: seq<Node<T>>): set<Node<T>>
  {
    set nd | nd in s
  }

  /** Dropping the first node of a duplicate-free sequence of nodes from its
      set leaves the set of the rest. */
  lemma NodeSetTail<T>(s: seq<Node<T>>)
    requires s != [] && s[0] !in s[1..]
    ensures NodeSet(s) - {s[0]} == NodeSet(s[1..])
  {
    assert s == [s[0]] + s[1..];
  }

  class DynamicLinkedList<T> {
    var head: Node?<T>

    // abstract view: the elements head to tail, and the nodes holding them
    ghost var Elems: seq<T>
    ghost var Nodes: seq<Node<T>>
    ghost var Repr: set<object>

    /** The object invariant: `Nodes[k]` holds `Elems[k]`, `head` is the
        first node and each node's `next` is the following one (the last
        one's is `null`). That the nodes are pairwise distinct, so the chain
        has no cycle, is derived from this (lemma NodesDistinct). */
    ghost predicate Valid()
      reads this, Repr
      ensures Valid() ==> this in Repr
    {
      && this in Repr
      && |Nodes| == |Elems|
      && (forall k :: 0 <= k < |Nodes| ==> Nodes[k] in Repr)
      && head == NodeAt(0)
      && (forall k :: 0 <= k < |Nodes| ==> Nodes[k].data == Elems[k])
      && (forall k :: 0 <= k < |Nodes| ==> Nodes[k].next == NodeAt(k + 1))
    }

    /** The node at position `k` of the chain, `null` past its end. */
    ghost function NodeAt(k: nat): Node?<T>
      reads this
    {
      if k < |Nodes| then Nodes[k] else null
    }

    /** The object owning the `k`-th link of the chain: `null` (the list's
        `head` field) for `k == 0`, otherwise the `k`-th node. */
    ghost function LinkOwner(k: nat): Node?<T>
      requires Valid() && k <= |Nodes|
      reads this, Repr
    {
      if k == 0 then null else Nodes[k - 1]
    }

    /** The value stored in the link that `owner` owns. */
    ghost function Link(owner: Node?<T>): Node?<T>
      reads this, owner
    {
      if owner == null then head else owner.next
    }

    /** `DynamicLinkedList::new`: the empty list. */
    constructor ()
      ensures Valid() && fresh(Repr)
      ensures head == null && Elems == []
    {
      head := null;
      Elems := [];
      Nodes := [];
      Repr := {this};
    }

    /** The cursor walk of `insert`: starting at the `head` link, step to the
        next link while the current one holds a node. The walk stops at the
        first empty link, which is the one after the last node, reached after
        exactly as many steps as the list has elements. */
    method WalkToTail() returns (owner: Node?<T>)
      requires Valid()
      ensures owner == LinkOwner(|Elems|) && Link(owner) == null
      ensures forall k :: 0 <= k < |Elems| ==> Link(LinkOwner(k)) != null
    {
      owner := null;
      var curr := head;
      ghost var steps := 0;
      while curr != null
        invariant 0 <= steps <= |Nodes|
        invariant owner == LinkOwner(steps)
        invariant curr == NodeAt(steps)
        decreases |Nodes| - steps
      {
        owner := curr;
        curr := curr.next;
        steps := steps + 1;
      }
      assert steps == |Nodes|;
      assert steps > 0 ==> Nodes[steps - 1].next == null;
      forall k | 0 <= k < |Elems|
        ensures Link(LinkOwner(k)) != null
      {
        assert Link(LinkOwner(k)) == Nodes[k];
      }
    }

    /** The cursor walk of `insert_at_index` for a positive index: advance
        the cursor `count` times from the `head` link, giving up as soon as
        the current link is empty. It gets through all `count` steps exactly
        when `count` is at most the length of the list; otherwise it gives up
        at the empty link after the last node. */
    method WalkLinks(count: nat) returns (owner: Node?<T>, inBounds: bool)
      requires Valid()
      ensures inBounds <==> count <= |Elems|
      ensures inBounds ==> owner == LinkOwner(count)
      ensures !inBounds ==> owner == LinkOwner(|Elems|) && Link(owner) == null
    {
      owner := null;
      var curr := head;
      inBounds := true;
      for i := 0 to count
        invariant i <= |Nodes|
        invariant owner == LinkOwner(i)
        invariant curr == NodeAt(i)
      {
        if curr == null {
          inBounds := false;
          return;
        }
        owner := curr;
        curr := curr.next;
      }
    }

    /** `insert`: append `x` at the tail. Only the empty link at the end of
        the chain is written; every other node is left as it was. */
    method Insert(x: T)
      requires Valid()
      modifies Repr
      ensures Valid() && fresh(Repr - old(Repr))
      ensures Elems == old(Elems) + [x]
      ensures |Nodes| == |old(Nodes)| + 1 && Nodes[..|old(Nodes)|] == old(Nodes)
      ensures fresh(Nodes[|old(Nodes)|])
      ensures old(head) != null ==> head == old(head)
      ensures forall k :: 0 <= k < |old(Nodes)| - 1 ==> unchanged(old(Nodes)[k])
    {
      var node := new Node(x, null);
      var owner := WalkToTail();
      if owner == null {
        head := node;
      } else {
        NodesDistinct(this);
        owner.next := node;
      }
      Elems := Elems + [x];
      Nodes := Nodes + [node];
      Repr := Repr + {node};
    }

    /** `insert_at_index`. Index 0 puts `x` in a new first node whose
        successor is the old first node. For any other index the Rust method
        walks `index - 1` links (returning early at the end of the chain)
        and then writes nothing, so the list is left unchanged whatever the
        index. */
    method InsertAtIndex(index: usize, x: T)
      requires Valid()
      modifies this
      ensures Valid() && fresh(Repr - old(Repr))
      ensures index == 0 ==> Elems == [x] + old(Elems)
      ensures index == 0 ==> head != null && fresh(head) && head.next == old(head)
      // the second conjunct follows from the first; it restates the abstract view
      ensures index != 0 ==> unchanged(this) && Elems == old(Elems)
    {
      if index == 0 {
        var node := new Node(x, head);
        head := node;
        Elems := [x] + Elems;
        Nodes := [node] + Nodes;
        Repr := Repr + {node};
        forall k | 0 <= k < |Nodes|
          ensures Nodes[k] in Repr && Nodes[k].data == Elems[k]
          ensures Nodes[k].next == NodeAt(k + 1)
        {
          if k > 0 {
            assert Nodes[k] == old(Nodes[k - 1]) && NodeAt(k + 1) == old(NodeAt(k));
          }
        }
        return;
      }
      var _, _ := WalkLinks((index - 1) as nat);
    }
  }

  /** Two different positions of the chain hold different nodes: were
      `Nodes[j]` and `Nodes[k]` the same node, their successors would be the
      same too, up to the last node, whose `next` is empty while its
      counterpart's is not. */
  lemma {:induction false} DistinctPair<T>(l: DynamicLinkedList<T>, j: nat, k: nat)
    requires l.Valid() && j < k < |l.Nodes|
    ensures l.Nodes[j] != l.Nodes[k]
    decreases |l.Nodes| - k
  {
    assert l.Nodes[j].next == l.Nodes[j + 1];
    if k + 1 < |l.Nodes| {
      DistinctPair(l, j + 1, k + 1);
      assert l.Nodes[k].next == l.Nodes[k + 1];
    } else {
      assert l.Nodes[k].next == null;
    }
  }

  /** The chain has no cycle: all its nodes are pairwise distinct. */
  lemma NodesDistinct<T>(l: DynamicLinkedList<T>)
    requires l.Valid()
    ensures forall j, k :: 0 <= j < k < |l.Nodes| ==> l.Nodes[j] != l.Nodes[k]
  {
    forall j, k | 0 <= j < k < |l.Nodes|
      ensures l.Nodes[j] != l.Nodes[k]
    {
      DistinctPair(l, j, k);
    }
  }

  /** Walking the chain from the `i`-th link over the nodes not yet visited
      yields the elements from position `i` on. */
  lemma {:induction false} ChainSuffix<T>(l: DynamicLinkedList<T>, i: nat)
    requires l.Valid() && i <= |l.Nodes|
    ensures Chain(l.Link(l.LinkOwner(i)), NodeSet(l.Nodes[i..])) == l.Elems[i..]
    decreases |l.Nodes| - i
  {
    if i < |l.Nodes| {
      ChainSuffix(l, i + 1);
      var nd := l.Nodes[i];
      assert l.Link(l.LinkOwner(i)) == nd;
      assert l.Link(l.LinkOwner(i + 1)) == nd.next;
      assert nd !in l.Nodes[i + 1..] by {
        NodesDistinct(l);
      }
      NodeSetTail(l.Nodes[i..]);
      assert l.Nodes[i..][1..] == l.Nodes[i + 1..];
      assert l.Elems[i..] == [nd.data] + l.Elems[i + 1..];
    } else {
      assert NodeSet(l.Nodes[i..]) == {};
    }
  }

  /** Following `next` links from `head` visits exactly the list's nodes and
      yields its elements head to tail. */
  lemma TraversalYieldsElems<T>(l: DynamicLinkedList<T>)
    requires l.Valid()
    ensures Chain(l.head, NodeSet(l.Nodes)) == l.Elems
  {
    ChainSuffix(l, 0);
    assert l.Nodes[0..] == l.Nodes;
    assert l.Elems[0..] == l.Elems;
  }
}
