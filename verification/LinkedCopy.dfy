/** A singly linked list of malloc'd nodes that is built node by node, as the copies of native result lists
    are. A node owns itself and the buffers its data points to. */
module LinkedCopy {
  import opened Memory

  class Node<V> {
    const data: V
    /** The buffers data points to, in the order in which they are freed. */
    const buffers: seq<object>
    var next: Node?<V>

    /** malloc leaves the link with any value. */
    constructor (data: V, buffers: seq<object>, garbage: Node?<V>)
      ensures this.data == data && this.buffers == buffers
    {
      this.data, this.buffers, this.next := data, buffers, garbage;
    }

    /** The blocks of this node, in the order in which they are freed. */
    ghost function Blocks(): seq<object> { buffers + [this] }
  }

  ghost function AllBlocks<V>(nodes: seq<Node<V>>): seq<object> {
    if nodes == [] then [] else AllBlocks(nodes[..|nodes| - 1]) + nodes[|nodes| - 1].Blocks()
  }

  /** The nodes are linked in order, and the last link is NULL. */
  ghost predicate Chain<V>(head: Node?<V>, nodes: seq<Node<V>>)
    reads nodes
  {
    && head == (if nodes == [] then null else nodes[0])
    && forall i :: 0 <= i < |nodes| ==> nodes[i].next == if i + 1 < |nodes| then nodes[i + 1] else null
  }

  /** A list under construction: linked except for the last node, each block allocated once since live0. */
  ghost predicate Building<V>(heap: Heap, live0: set<object>, nodes: seq<Node<V>>)
    reads heap, nodes
  {
    && nodes != [] && NoDuplicates(nodes)
    && (forall i :: 0 <= i < |nodes| - 1 ==> nodes[i].next == nodes[i + 1])
    && NoDuplicates(AllBlocks(nodes)) && (forall x :: x in AllBlocks(nodes) ==> x !in live0)
    && heap.Valid() && heap.live == live0 + SetOf(AllBlocks(nodes))
  }

  /** A node that has just been allocated. */
  twostate predicate NewNode<V>(heap: Heap, new n: Node<V>)
    reads heap
  {
    && fresh(n) && (forall x :: x in n.Blocks() ==> fresh(x)) && NoDuplicates(n.Blocks())
    && heap.Valid() && heap.freed == old(heap.freed) && heap.live == old(heap.live) + SetOf(n.Blocks())
  }

  /** malloc of a node, when what its data points to has been allocated. */
  method Allocate<V>(heap: Heap, data: V, buffers: seq<object>) returns (n: Node<V>)
    requires heap.Valid() && NoDuplicates(buffers)
    modifies heap
    ensures fresh(n) && n.data == data && n.buffers == buffers && NoDuplicates(n.Blocks())
    ensures SetOf(n.Blocks()) == SetOf(buffers) + {n}
    ensures heap.Valid() && heap.freed == old(heap.freed) && heap.live == old(heap.live) + {n}
  {
    var garbage: Node?<V> := *;
    n := new Node(data, buffers, garbage);
    heap.Track(n);
    assert forall x :: x in n.Blocks() <==> x in buffers || x == n;
  }

  lemma ConcatDistinct(s: seq<object>, t: seq<object>)
    requires NoDuplicates(s) && NoDuplicates(t) && forall x :: x in t ==> x !in s
    ensures NoDuplicates(s + t) && SetOf(s + t) == SetOf(s) + SetOf(t)
  {
    forall i, j | 0 <= i < j < |s + t| ensures (s + t)[i] != (s + t)[j] {
      if i < |s| <= j { assert (s + t)[j] in t && (s + t)[i] in s; }
    }
  }

  lemma MiddleDistinct(s: seq<object>, before: seq<object>, here: seq<object>)
    requires NoDuplicates(s) && before + here <= s
    ensures NoDuplicates(here) && SetOf(before + here) == SetOf(before) + SetOf(here)
    ensures forall x :: x in here ==> x in s && x !in SetOf(before)
  {
    assert forall i :: 0 <= i < |here| ==> s[|before| + i] == (before + here)[|before| + i] == here[i];
    assert forall i :: 0 <= i < |before| ==> s[i] == (before + here)[i] == before[i];
  }

  lemma AppendBlocks<V>(nodes: seq<Node<V>>, n: Node<V>)
    requires NoDuplicates(AllBlocks(nodes)) && NoDuplicates(n.Blocks())
    requires forall x :: x in n.Blocks() ==> x !in AllBlocks(nodes)
    ensures AllBlocks(nodes + [n]) == AllBlocks(nodes) + n.Blocks()
    ensures NoDuplicates(AllBlocks(nodes + [n]))
    ensures SetOf(AllBlocks(nodes + [n])) == SetOf(AllBlocks(nodes)) + SetOf(n.Blocks())
    ensures n in n.Blocks()
  {
    assert (nodes + [n])[..|nodes|] == nodes;
    assert n.Blocks()[|n.Blocks()| - 1] == n;
    ConcatDistinct(AllBlocks(nodes), n.Blocks());
  }

  lemma {:induction false} NodesAmongBlocks<V>(nodes: seq<Node<V>>)
    ensures forall i :: 0 <= i < |nodes| ==> nodes[i] in AllBlocks(nodes)
    decreases |nodes|
  {
    if nodes != [] {
      var init, last := nodes[..|nodes| - 1], nodes[|nodes| - 1];
      NodesAmongBlocks(init);
      assert last.Blocks()[|last.Blocks()| - 1] == last;
      assert forall i :: 0 <= i < |init| ==> nodes[i] == init[i];
    }
  }

  lemma {:induction false} BlocksOfPrefix<V>(nodes: seq<Node<V>>, k: nat)
    requires k <= |nodes|
    ensures AllBlocks(nodes[..k]) <= AllBlocks(nodes)
    decreases |nodes|
  {
    if k == |nodes| {
      assert nodes[..k] == nodes;
    } else {
      BlocksOfPrefix(nodes[..|nodes| - 1], k);
      assert nodes[..|nodes| - 1][..k] == nodes[..k];
    }
  }

  /** The first node of a list. */
  lemma StartsBuilding<V>(heap: Heap, live0: set<object>, n: Node<V>)
    requires heap.Valid() && NoDuplicates(n.Blocks()) && (forall x :: x in n.Blocks() ==> x !in live0)
    requires heap.live == live0 + SetOf(n.Blocks())
    ensures Building(heap, live0, [n]) && AllBlocks([n]) == n.Blocks()
  {
  }

  /** last->next = the node that was allocated in between. */
  method Link<V>(heap: Heap, last: Node<V>, n: Node<V>, ghost live0: set<object>, ghost liveBefore: set<object>, ghost nodes: seq<Node<V>>)
    requires nodes != [] && last == nodes[|nodes| - 1] && NoDuplicates(nodes) && NoDuplicates(AllBlocks(nodes))
    requires forall i :: 0 <= i < |nodes| - 1 ==> nodes[i].next == nodes[i + 1]
    requires forall x :: x in AllBlocks(nodes) ==> x !in live0
    requires liveBefore == live0 + SetOf(AllBlocks(nodes))
    requires NoDuplicates(n.Blocks()) && forall x :: x in n.Blocks() ==> x !in liveBefore
    requires heap.Valid() && heap.live == liveBefore + SetOf(n.Blocks())
    modifies last`next
    ensures Building(heap, live0, nodes + [n])
    ensures AllBlocks(nodes + [n]) == AllBlocks(nodes) + n.Blocks()
  {
    last.next := n;
    assert forall x :: x in AllBlocks(nodes) ==> x in SetOf(AllBlocks(nodes));
    NodesAmongBlocks(nodes);
    AppendBlocks(nodes, n);
  }

  lemma PrefixStep<V>(nodes: seq<Node<V>>, k: nat)
    requires k < |nodes|
    ensures AllBlocks(nodes[..k + 1]) == AllBlocks(nodes[..k]) + nodes[k].Blocks()
  {
    assert nodes[..k + 1][..k] == nodes[..k];
    assert nodes[..k + 1][k] == nodes[k];
  }

  /** The blocks of the next node are among all blocks, and not among those of the nodes before it. */
  lemma NextBlocks<V>(nodes: seq<Node<V>>, k: nat)
    requires k < |nodes| && NoDuplicates(AllBlocks(nodes))
    ensures AllBlocks(nodes[..k + 1]) == AllBlocks(nodes[..k]) + nodes[k].Blocks()
    ensures NoDuplicates(nodes[k].Blocks())
    ensures forall x :: x in nodes[k].Blocks() ==> x in AllBlocks(nodes) && x !in SetOf(AllBlocks(nodes[..k]))
    ensures SetOf(AllBlocks(nodes[..k + 1])) == SetOf(AllBlocks(nodes[..k])) + SetOf(nodes[k].Blocks())
  {
    var all, before, here, upTo := AllBlocks(nodes), AllBlocks(nodes[..k]), nodes[k].Blocks(), AllBlocks(nodes[..k + 1]);
    PrefixStep(nodes, k);
    BlocksOfPrefix(nodes, k + 1);
    assert before + here == upTo;
    MiddleDistinct(all, before, here);
  }

  /** What is left of a list whose first k nodes were freed. */
  ghost predicate Freeing<V>(heap: Heap, live0: set<object>, freed0: seq<object>, nodes: seq<Node<V>>, k: nat)
    requires k <= |nodes|
    reads heap
  {
    && heap.Valid() && NoDuplicates(AllBlocks(nodes)) && (forall x :: x in AllBlocks(nodes) ==> x in live0)
    && heap.freed == freed0 + AllBlocks(nodes[..k])
    && heap.live == live0 - SetOf(AllBlocks(nodes[..k]))
  }

  // ----- The native list that is copied

  /** A node of a list the native library returns; the shim only reads it. */
  class NativeNode<N> {
    const info: N
    const next: NativeNode?<N>

    constructor (info: N, next: NativeNode?<N>)
      ensures this.info == info && this.next == next
    {
      this.info, this.next := info, next;
    }
  }

  /** The list is finite and holds these nodes. */
  ghost predicate NativeList<N>(head: NativeNode?<N>, infos: seq<N>) {
    if infos == [] then head == null
    else head != null && head.info == infos[0] && NativeList(head.next, infos[1..])
  }

  lemma NextInfo<N>(infos: seq<N>, k: nat, node: NativeNode<N>)
    requires k <= |infos| && NativeList(node, infos[k..])
    ensures k < |infos| && infos[k] == node.info && NativeList(node.next, infos[k + 1..])
  {
  }

  /** Each node is related to the native one at its place, said from the last node back. */
  ghost predicate Copied<V, N>(nodes: seq<Node<V>>, infos: seq<N>, isCopy: (Node<V>, N) -> bool)
    requires |nodes| <= |infos|
  {
    nodes != [] ==>
      isCopy(nodes[|nodes| - 1], infos[|nodes| - 1]) && Copied(nodes[..|nodes| - 1], infos, isCopy)
  }

  lemma {:induction false} CopiedEach<V, N>(nodes: seq<Node<V>>, infos: seq<N>, isCopy: (Node<V>, N) -> bool)
    requires |nodes| <= |infos| && Copied(nodes, infos, isCopy)
    ensures forall i :: 0 <= i < |nodes| ==> isCopy(nodes[i], infos[i])
    decreases |nodes|
  {
    if nodes != [] {
      var init := nodes[..|nodes| - 1];
      CopiedEach(init, infos, isCopy);
      assert forall i :: 0 <= i < |init| ==> nodes[i] == init[i];
    }
  }

  /** A list under construction, of which each node is a copy. */
  ghost predicate Copying<V, N>(heap: Heap, live0: set<object>, nodes: seq<Node<V>>, infos: seq<N>, isCopy: (Node<V>, N) -> bool)
    reads heap, nodes
  {
    |nodes| <= |infos| && Building(heap, live0, nodes) && Copied(nodes, infos, isCopy)
  }

  ghost predicate AreCopies<V, N>(nodes: seq<Node<V>>, infos: seq<N>, isCopy: (Node<V>, N) -> bool) {
    |nodes| == |infos| && forall i :: 0 <= i < |nodes| ==> isCopy(nodes[i], infos[i])
  }

  /** The first copy. */
  lemma StartsCopying<V, N>(heap: Heap, live0: set<object>, n: Node<V>, infos: seq<N>, isCopy: (Node<V>, N) -> bool)
    requires infos != [] && isCopy(n, infos[0])
    requires heap.Valid() && NoDuplicates(n.Blocks()) && (forall x :: x in n.Blocks() ==> x !in live0)
    requires heap.live == live0 + SetOf(n.Blocks())
    ensures Copying(heap, live0, [n], infos, isCopy) && AllBlocks([n]) == n.Blocks()
  {
    StartsBuilding(heap, live0, n);
    assert [n][..0] == [];
  }

  /** last->next = the next copy. */
  method LinkCopy<V, N>(heap: Heap, last: Node<V>, n: Node<V>, ghost live0: set<object>, ghost liveBefore: set<object>,
      ghost nodes: seq<Node<V>>, ghost infos: seq<N>, ghost isCopy: (Node<V>, N) -> bool)
    requires nodes != [] && last == nodes[|nodes| - 1] && NoDuplicates(nodes) && NoDuplicates(AllBlocks(nodes))
    requires forall i :: 0 <= i < |nodes| - 1 ==> nodes[i].next == nodes[i + 1]
    requires forall x :: x in AllBlocks(nodes) ==> x !in live0
    requires liveBefore == live0 + SetOf(AllBlocks(nodes))
    requires NoDuplicates(n.Blocks()) && forall x :: x in n.Blocks() ==> x !in liveBefore
    requires heap.Valid() && heap.live == liveBefore + SetOf(n.Blocks())
    requires |nodes| < |infos| && Copied(nodes, infos, isCopy) && isCopy(n, infos[|nodes|])
    modifies last`next
    ensures Copying(heap, live0, nodes + [n], infos, isCopy)
    ensures AllBlocks(nodes + [n]) == AllBlocks(nodes) + n.Blocks()
  {
    Link(heap, last, n, live0, liveBefore, nodes);
    assert (nodes + [n])[..|nodes|] == nodes;
  }

  /** The list of the native library starts, goes on and ends with the nodes it holds. */
  lemma FirstInfo<N>(infos: seq<N>, head: NativeNode<N>)
    requires NativeList(head, infos)
    ensures infos != [] && infos[0] == head.info && NativeList(head.next, infos[1..])
  {
  }

  lemma LastInfo<N>(infos: seq<N>, k: nat, node: NativeNode?<N>)
    requires k <= |infos| && NativeList(node, infos[k..])
    ensures node == null <==> k == |infos|
  {
  }

  /** last->next = NULL, behind the loop. */
  method EndList<V, N>(heap: Heap, last: Node<V>, ghost live0: set<object>, ghost nodes: seq<Node<V>>, ghost infos: seq<N>,
      ghost isCopy: (Node<V>, N) -> bool)
    requires Copying(heap, live0, nodes, infos, isCopy) && |nodes| == |infos| && last == nodes[|nodes| - 1]
    modifies last`next
    ensures Building(heap, live0, nodes) && Chain(nodes[0], nodes) && AreCopies(nodes, infos, isCopy)
  {
    last.next := null;
    CopiedEach(nodes, infos, isCopy);
  }
}
