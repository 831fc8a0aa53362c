/** Pointer surgery on a doubly linked chain of pool nodes (the statements of List.h that rewire links). */
module NodeChain {
  import opened MemoryPool
  import opened ListOutcomes

  function NodeAt(nodes: seq<Node>, i: int): Node? {
    if 0 <= i < |nodes| then nodes[i] else null
  }

  ghost predicate Distinct(nodes: seq<Node>) {
    forall i, j :: 0 <= i < j < |nodes| ==> nodes[i] != nodes[j]
  }

  /** `pNext` and `pPrev` are mutually inverse along the sequence and null at its ends. */
  ghost predicate Chained(nodes: seq<Node>)
    reads (set n | n in nodes)`pPrev, (set n | n in nodes)`pNext
  {
    forall i :: 0 <= i < |nodes| ==> nodes[i].pNext == NodeAt(nodes, i + 1) && nodes[i].pPrev == NodeAt(nodes, i - 1)
  }

  ghost predicate Carries(nodes: seq<Node>, elems: seq<int>)
    reads (set n | n in nodes)`pElement
  {
    |elems| == |nodes| && forall i :: 0 <= i < |nodes| ==> nodes[i].pElement == elems[i]
  }

  ghost function NodeSet(nodes: seq<Node>): set<Node> {
    set n | n in nodes
  }

  lemma InsertFacts(nodes: seq<Node>, i: nat, n: Node)
    requires i <= |nodes| && n !in nodes && Distinct(nodes)
    ensures Distinct(InsertAt(nodes, i, n)) && NodeSet(InsertAt(nodes, i, n)) == NodeSet(nodes) + {n}
    ensures var d := InsertAt(nodes, i, n);
      && |d| == |nodes| + 1 && d[i] == n
      && (0 < i ==> d[0] == nodes[0]) && (i < |nodes| ==> d[|nodes|] == nodes[|nodes| - 1])
  {
    assert nodes == nodes[..i] + nodes[i..];
  }

  lemma WithoutFacts(nodes: seq<Node>, i: nat)
    requires i < |nodes| && Distinct(nodes)
    ensures Distinct(Without(nodes, i)) && NodeSet(Without(nodes, i)) == NodeSet(nodes) - {nodes[i]}
  {
    assert nodes == nodes[..i] + [nodes[i]] + nodes[i + 1..];
  }

  lemma InsertCarries(nodes: seq<Node>, elems: seq<int>, i: nat, n: Node)
    requires i <= |nodes| && Carries(nodes, elems)
    ensures Carries(InsertAt(nodes, i, n), InsertAt(elems, i, n.pElement))
  {
  }

  lemma WithoutCarries(nodes: seq<Node>, elems: seq<int>, i: nat)
    requires i < |nodes| && Carries(nodes, elems)
    ensures Carries(Without(nodes, i), Without(elems, i))
  {
  }

  lemma SingleChained(n: Node)
    requires n.pNext == null && n.pPrev == null
    ensures Chained([n]) && InsertAt([], 0, n) == [n]
  {
  }

  // ----- From the links of the nodes to the links of the longer or shorter sequence

  /** The old nodes' links, but for the two around the gap at place i. */
  ghost predicate Opened(nodes: seq<Node>, i: nat, n: Node)
    requires i <= |nodes|
    reads (set x | x in nodes)`pPrev, (set x | x in nodes)`pNext
  {
    && (forall j :: 0 <= j < |nodes| ==> nodes[j].pNext == if j == i - 1 then n else NodeAt(nodes, j + 1))
    && (forall j :: 0 <= j < |nodes| ==> nodes[j].pPrev == if j == i then n else NodeAt(nodes, j - 1))
  }

  lemma AtPlace(nodes: seq<Node>, j: int)
    ensures NodeAt(nodes, j) == if 0 <= j < |nodes| then nodes[j] else null
  {
  }

  lemma InsertedNode(nodes: seq<Node>, i: nat, n: Node, j: int)
    requires i <= |nodes|
    ensures |InsertAt(nodes, i, n)| == |nodes| + 1
    ensures NodeAt(InsertAt(nodes, i, n), j)
         == if j < i then NodeAt(nodes, j) else if j == i then n else NodeAt(nodes, j - 1)
  {
  }

  lemma OpenedChained(nodes: seq<Node>, i: nat, n: Node)
    requires i <= |nodes| && Opened(nodes, i, n)
    requires n.pNext == NodeAt(nodes, i) && n.pPrev == NodeAt(nodes, i - 1)
    ensures Chained(InsertAt(nodes, i, n))
  {
    hide InsertAt, NodeAt;
    var d := InsertAt(nodes, i, n);
    forall j | 0 <= j < |d| ensures d[j].pNext == NodeAt(d, j + 1) && d[j].pPrev == NodeAt(d, j - 1) {
      InsertedNode(nodes, i, n, j - 1);
      InsertedNode(nodes, i, n, j);
      InsertedNode(nodes, i, n, j + 1);
      AtPlace(d, j);
      AtPlace(nodes, if j < i then j else j - 1);
    }
  }

  /** The links of all nodes but the one at place i lead past that one. */
  ghost predicate Closed(nodes: seq<Node>, i: nat)
    requires i < |nodes|
    reads (set x | x in nodes)`pPrev, (set x | x in nodes)`pNext
  {
    && (forall j :: 0 <= j < |nodes| && j != i ==>
          nodes[j].pNext == if j == i - 1 then NodeAt(nodes, i + 1) else NodeAt(nodes, j + 1))
    && (forall j :: 0 <= j < |nodes| && j != i ==>
          nodes[j].pPrev == if j == i + 1 then NodeAt(nodes, i - 1) else NodeAt(nodes, j - 1))
  }

  lemma KeptNode(nodes: seq<Node>, i: nat, j: int)
    requires i < |nodes|
    ensures |Without(nodes, i)| == |nodes| - 1
    ensures NodeAt(Without(nodes, i), j) == if j < i then NodeAt(nodes, j) else NodeAt(nodes, j + 1)
  {
  }

  lemma ClosedChained(nodes: seq<Node>, i: nat)
    requires i < |nodes| && Closed(nodes, i)
    ensures Chained(Without(nodes, i))
  {
    hide Without, NodeAt;
    var d := Without(nodes, i);
    forall j | 0 <= j < |d| ensures d[j].pNext == NodeAt(d, j + 1) && d[j].pPrev == NodeAt(d, j - 1) {
      KeptNode(nodes, i, j - 1);
      KeptNode(nodes, i, j);
      KeptNode(nodes, i, j + 1);
      AtPlace(d, j);
      AtPlace(nodes, if j < i then j else j + 1);
    }
  }

  // ----- The statements that rewire

  /** AddHead on a nonempty list. */
  method LinkHead(newNode: Node, head: Node, ghost nodes: seq<Node>)
    requires nodes != [] && nodes[0] == head && newNode !in nodes && Distinct(nodes) && Chained(nodes)
    requires newNode.pPrev == null
    modifies head`pPrev, newNode`pNext
    ensures Chained(InsertAt(nodes, 0, newNode))
  {
    hide NodeAt;
    AtPlace(nodes, -1);
    AtPlace(nodes, 0);
    head.pPrev := newNode;
    newNode.pNext := head;
    OpenedChained(nodes, 0, newNode);
  }

  /** AddTail on a nonempty list. */
  method LinkTail(newNode: Node, tail: Node, ghost nodes: seq<Node>)
    requires nodes != [] && nodes[|nodes| - 1] == tail && newNode !in nodes && Distinct(nodes) && Chained(nodes)
    requires newNode.pNext == null
    modifies tail`pNext, newNode`pPrev
    ensures Chained(InsertAt(nodes, |nodes|, newNode))
  {
    hide NodeAt;
    AtPlace(nodes, |nodes| - 1);
    AtPlace(nodes, |nodes|);
    tail.pNext := newNode;
    newNode.pPrev := tail;
    OpenedChained(nodes, |nodes|, newNode);
  }

  /** InsertBefore in front of the node at place i > 0. */
  method LinkBetween(newNode: Node, after: Node, current: Node, ghost nodes: seq<Node>, ghost i: nat)
    requires 0 < i < |nodes| && nodes[i - 1] == after && nodes[i] == current
    requires newNode !in nodes && Distinct(nodes) && Chained(nodes)
    modifies current`pPrev, after`pNext, newNode`pPrev, newNode`pNext
    ensures Chained(InsertAt(nodes, i, newNode))
  {
    hide NodeAt;
    AtPlace(nodes, i - 1);
    AtPlace(nodes, i);
    newNode.pPrev := current.pPrev;
    newNode.pNext := current;
    current.pPrev := newNode;
    after.pNext := newNode;
    OpenedChained(nodes, i, newNode);
  }

  /** DeleteHead on a list of at least two. */
  method UnlinkHead(second: Node, ghost nodes: seq<Node>)
    requires |nodes| >= 2 && nodes[1] == second && Distinct(nodes) && Chained(nodes)
    modifies second`pPrev
    ensures Chained(Without(nodes, 0))
  {
    hide NodeAt;
    AtPlace(nodes, -1);
    second.pPrev := null;
    ClosedChained(nodes, 0);
  }

  /** DeleteTail on a list of at least two: only the new tail's link is cut. */
  method UnlinkTail(after: Node, ghost nodes: seq<Node>)
    requires |nodes| >= 2 && nodes[|nodes| - 2] == after && Distinct(nodes) && Chained(nodes)
    modifies after`pNext
    ensures Chained(Without(nodes, |nodes| - 1))
  {
    hide NodeAt;
    AtPlace(nodes, |nodes|);
    after.pNext := null;
    ClosedChained(nodes, |nodes| - 1);
  }

  /** DeletePos (and DeleteAt) in the middle. */
  method UnlinkBetween(after: Node, current: Node, ghost next: Node, ghost nodes: seq<Node>, ghost i: nat)
    requires 0 < i < |nodes| - 1 && nodes[i - 1] == after && nodes[i] == current && nodes[i + 1] == next
    requires Distinct(nodes) && Chained(nodes)
    modifies next`pPrev, after`pNext
    ensures Chained(Without(nodes, i)) && current.pElement == old(current.pElement)
  {
    hide NodeAt;
    AtPlace(nodes, i - 1);
    AtPlace(nodes, i + 1);
    current.pNext.pPrev := after;
    after.pNext := current.pNext;
    ClosedChained(nodes, i);
  }

  // ----- What InsertpAfter leaves

  /** Every `pNext` is right. */
  ghost predicate Onward(nodes: seq<Node>)
    reads (set n | n in nodes)`pNext
  {
    forall i :: 0 <= i < |nodes| ==> nodes[i].pNext == NodeAt(nodes, i + 1)
  }

  /** The `pPrev` of the node before place i leads forward past it, and that of the node two behind skips one. */
  ghost predicate Miswired(nodes: seq<Node>, i: nat)
    requires 0 < i && i + 1 < |nodes|
    reads (set n | n in nodes)`pPrev, (set n | n in nodes)`pNext
  {
    && Onward(nodes)
    && forall j :: 0 <= j < |nodes| ==>
         nodes[j].pPrev == if j == i - 1 then nodes[i + 1] else if j == i + 2 then nodes[i] else NodeAt(nodes, j - 1)
  }

  /** The old nodes' links after the two writes. */
  ghost predicate Mislinked(nodes: seq<Node>, i: nat, n: Node)
    requires 0 < i < |nodes|
    reads (set x | x in nodes)`pPrev, (set x | x in nodes)`pNext
  {
    && (forall j :: 0 <= j < |nodes| ==> nodes[j].pNext == if j == i then n else NodeAt(nodes, j + 1))
    && (forall j :: 0 <= j < |nodes| ==> nodes[j].pPrev == if j == i - 1 then n else NodeAt(nodes, j - 1))
  }

  lemma MislinkedMiswired(nodes: seq<Node>, i: nat, n: Node)
    requires 0 < i < |nodes| && Mislinked(nodes, i, n)
    requires n.pNext == NodeAt(nodes, i + 1) && n.pPrev == NodeAt(nodes, i)
    ensures |InsertAt(nodes, i + 1, n)| == |nodes| + 1 && Miswired(InsertAt(nodes, i + 1, n), i)
  {
    hide InsertAt, NodeAt;
    var d := InsertAt(nodes, i + 1, n);
    InsertedNode(nodes, i + 1, n, i);
    InsertedNode(nodes, i + 1, n, i + 1);
    AtPlace(d, i);
    AtPlace(d, i + 1);
    forall j | 0 <= j < |d|
      ensures d[j].pNext == NodeAt(d, j + 1)
      ensures d[j].pPrev == if j == i - 1 then d[i + 1] else if j == i + 2 then d[i] else NodeAt(d, j - 1)
    {
      InsertedNode(nodes, i + 1, n, j - 1);
      InsertedNode(nodes, i + 1, n, j);
      InsertedNode(nodes, i + 1, n, j + 1);
      AtPlace(d, j);
      AtPlace(nodes, if j <= i then j else j - 1);
    }
  }

  lemma MiswiredNotChained(nodes: seq<Node>, i: nat)
    requires 0 < i && i + 1 < |nodes| && Distinct(nodes) && Miswired(nodes, i)
    ensures !Chained(nodes)
  {
    hide NodeAt;
    AtPlace(nodes, i - 2);
    assert nodes[i - 1].pPrev == nodes[i + 1];
  }

  /** InsertpAfter behind the node at place i > 0. */
  method LinkAfter(newNode: Node, after: Node, current: Node, ghost nodes: seq<Node>, ghost i: nat)
    requires 0 < i < |nodes| && nodes[i - 1] == after && nodes[i] == current
    requires newNode !in nodes && Distinct(nodes) && Chained(nodes)
    modifies newNode`pPrev, newNode`pNext, after`pPrev, current`pNext
    ensures |InsertAt(nodes, i + 1, newNode)| == |nodes| + 1 && Miswired(InsertAt(nodes, i + 1, newNode), i)
  {
    hide NodeAt;
    AtPlace(nodes, i);
    newNode.pPrev := current;
    newNode.pNext := current.pNext;
    after.pPrev := newNode;
    current.pNext := newNode;
    MislinkedMiswired(nodes, i, newNode);
  }
}
