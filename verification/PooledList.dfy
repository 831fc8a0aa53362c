/** CList: a doubly linked list whose nodes come from a pool (List.h). */
module PooledList {
  import BandPool
  import opened MemoryPool
  import opened ListOutcomes
  import opened NodeChain

  /** The place of a node in the list, -1 if it has none. */
  ghost function PlaceOf(nodes: seq<Node>, pos: Node?): int {
    if nodes == [] then -1
    else if nodes[0] == pos then 0
    else var k := PlaceOf(nodes[1..], pos); if k < 0 then -1 else k + 1
  }

  lemma {:induction false} FirstPlace(nodes: seq<Node>, pos: Node?, i: nat)
    requires i < |nodes| && nodes[i] == pos && pos !in nodes[..i]
    ensures PlaceOf(nodes, pos) == i
  {
    if i == 0 {
    } else {
      assert nodes[0] in nodes[..i] && nodes[1..][..i - 1] == nodes[..i][1..];
      FirstPlace(nodes[1..], pos, i - 1);
    }
  }

  lemma {:induction false} NoPlace(nodes: seq<Node>, pos: Node?)
    requires pos !in nodes
    ensures PlaceOf(nodes, pos) == -1
  {
    if nodes == [] {
    } else {
      NoPlace(nodes[1..], pos);
    }
  }

  lemma NextOf(nodes: seq<Node>, k: nat)
    requires Chained(nodes) && k < |nodes|
    ensures nodes[k].pNext == NodeAt(nodes, k + 1)
  {
  }

  lemma OnlyAt(nodes: seq<Node>, p: nat)
    requires p < |nodes| && Distinct(nodes)
    ensures forall i :: 0 <= i < |nodes| && nodes[i] == nodes[p] ==> i == p
  {
  }

  lemma DrainStep(nodes: seq<Node>, k: nat)
    requires k < |nodes| && Distinct(nodes) && Chained(nodes)
    ensures nodes[k] in NodeSet(nodes[k..]) && nodes[k].pNext == NodeAt(nodes, k + 1)
    ensures NodeSet(nodes[k..]) - {nodes[k]} == NodeSet(nodes[k + 1..])
  {
    assert nodes[k..] == [nodes[k]] + nodes[k + 1..];
    assert nodes[k] !in nodes[k + 1..];
  }

  lemma NothingCarried()
    ensures Distinct([]) && Chained([]) && Carries([], []) && NodeSet([]) == {}
  {
  }

  lemma InsertKeepsEnds(nodes: seq<Node>, i: nat, n: Node)
    requires i < |nodes|
    ensures var d := InsertAt(nodes, i + 1, n);
      |d| == |nodes| + 1 && d[0] == nodes[0]
      && nodes[|nodes| - 1] == if i + 1 == |nodes| then d[i] else d[|nodes|]
  {
  }

  lemma ElementAt(nodes: seq<Node>, elems: seq<int>, i: nat)
    requires i < |nodes| && Carries(nodes, elems)
    ensures |elems| == |nodes| && nodes[i].pElement == elems[i]
  {
  }

  lemma SameLength(nodes: seq<Node>, elems: seq<int>)
    requires Carries(nodes, elems)
    ensures |elems| == |nodes|
  {
  }

  /** What DeleteHead and DeleteTail find out by comparing head and tail. */
  lemma FirstNode(nodes: seq<Node>, elems: seq<int>)
    requires nodes != [] && Distinct(nodes) && Chained(nodes) && Carries(nodes, elems)
    ensures nodes[0] == nodes[|nodes| - 1] <==> |nodes| == 1
    ensures |nodes| > 1 ==> nodes[0].pNext == nodes[1]
    ensures |elems| == |nodes| && nodes[0].pElement == elems[0] && nodes[|nodes| - 1].pElement == elems[|nodes| - 1]
  {
  }

  lemma NoneChained(nodes: seq<Node>)
    requires |nodes| == 1
    ensures Chained(Without(nodes, 0))
  {
  }

  class CList {
    var pHead: Node?
    var pTail: Node?
    var nCount: int
    const nodePool: MemoryPoolFactory

    /** The nodes in order, and the elements they carry. */
    ghost var nodes: seq<Node>
    ghost var elems: seq<int>

    /** Exactly the nodes of the list are outstanding: none is leaked, and none reachable has been freed. */
    ghost predicate Pooled()
      reads this, nodePool, nodePool.Repr
    {
      this !in nodePool.Repr && nodePool.Valid() && nodePool.out == NodeSet(nodes)
    }

    ghost predicate Shaped()
      reads this, NodeSet(nodes)
    {
      && pHead == NodeAt(nodes, 0) && pTail == NodeAt(nodes, |nodes| - 1) && nCount == Wrap16(|nodes|)
      && Distinct(nodes) && Chained(nodes) && Carries(nodes, elems)
    }

    ghost predicate Valid()
      reads this, nodePool, nodePool.Repr, NodeSet(nodes)
    {
      Pooled() && Shaped()
    }

    constructor (blockSize: nat)
      requires blockSize < DWORD_RANGE
      ensures Valid() && elems == [] && fresh(nodePool.Repr) && fresh(nodePool.objects)
      ensures nodePool.basic == blockSize && nodePool.poolExtendSize == blockSize / 2 + 1
    {
      assert blockSize / 2 + 1 < DWORD_RANGE;
      hide *;
      pHead, pTail, nCount := null, null, 0;
      nodePool := new MemoryPoolFactory(blockSize, blockSize / 2 + 1);
      nodes, elems := [], [];
      new;
      EmptyIsValid();
    }

    lemma EmptyIsValid()
      requires this !in nodePool.Repr && nodePool.Valid() && nodePool.out == {}
      requires pHead == null && pTail == null && nCount == 0 && nodes == [] && elems == []
      ensures Valid()
    {
      hide MemoryPoolFactory.Valid, Distinct, Chained, Carries, NodeSet;
      NothingCarried();
    }

    /** The first four lines of every insertion. */
    method NewNode(pElement: int) returns (newNode: Node)
      requires Valid()
      modifies nodePool.Repr, nodePool.objects
      ensures nodePool.Valid() && this !in nodePool.Repr
      ensures fresh(nodePool.Repr - old(nodePool.Repr)) && fresh(nodePool.objects - old(nodePool.objects))
      ensures nodePool.out == NodeSet(nodes) + {newNode} && newNode !in nodes && newNode in nodePool.objects
      ensures newNode.pPrev == null && newNode.pNext == null && newNode.pElement == pElement
      ensures Shaped()
    {
      hide MemoryPoolFactory.Valid, Distinct, Wrap16, NodeAt, BandPool.Alloc, BandPool.MustGrow, BandPool.FreeBag;
      ghost var supply;
      nodePool.NodesOutside();
      assert forall n :: n in nodes <==> n in NodeSet(nodes);
      newNode, supply := nodePool.Alloc();
      nodePool.NodesOutside();
      newNode.pPrev := null;
      newNode.pElement := pElement;
      newNode.pNext := null;
    }

    /** The last line of every insertion: the linked node joins the list at place i, and the count goes up. */
    method Adopt(newNode: Node, ghost i: nat)
      requires this !in nodePool.Repr && nodePool.Valid()
      requires i <= |nodes| && newNode !in nodes && nodePool.out == NodeSet(nodes) + {newNode}
      requires Distinct(nodes) && Carries(nodes, elems) && nCount == Wrap16(|nodes|)
      modifies this`nodes, this`elems, this`nCount
      ensures Pooled() && Distinct(nodes) && Carries(nodes, elems) && nCount == Wrap16(|nodes|)
      ensures nodes == InsertAt(old(nodes), i, newNode)
      ensures |old(elems)| == |old(nodes)| && elems == InsertAt(old(elems), i, newNode.pElement)
    {
      hide MemoryPoolFactory.Valid, Distinct, Carries, Wrap16, InsertAt;
      SameLength(nodes, elems);
      InsertFacts(nodes, i, newNode);
      InsertCarries(nodes, elems, i, newNode);
      WrapSteps(|nodes|);
      nodes, elems := InsertAt(nodes, i, newNode), InsertAt(elems, i, newNode.pElement);
      nCount := Wrap16(nCount + 1);
    }

    method AddHead(pElement: int)
      requires Valid()
      modifies this, nodePool.Repr, nodePool.objects
      ensures Valid()
      ensures fresh(nodePool.Repr - old(nodePool.Repr)) && fresh(nodePool.objects - old(nodePool.objects))
      ensures elems == InsertAt(old(elems), 0, pElement)
      ensures nodes != [] && nodes == InsertAt(old(nodes), 0, nodes[0])
    {
      hide MemoryPoolFactory.Valid, Distinct, Chained, Carries, Wrap16, InsertAt;
      nodePool.NodesOutside();
      var newNode := NewNode(pElement);
      InsertFacts(nodes, 0, newNode);
      nodePool.NodesOutside();
      if pHead == null {
        pHead := newNode;
        pHead.pNext := null;
        pTail := pHead;
        SingleChained(newNode);
      } else {
        assert pHead in NodeSet(nodes);
        LinkHead(newNode, pHead, nodes);
        pHead := newNode;
      }
      ghost var d := InsertAt(nodes, 0, newNode);
      assert Chained(d);
      Adopt(newNode, 0);
      assert Chained(d);
    }

    method AddTail(pElement: int)
      requires Valid()
      modifies this, nodePool.Repr, nodePool.objects
      ensures Valid()
      ensures fresh(nodePool.Repr - old(nodePool.Repr)) && fresh(nodePool.objects - old(nodePool.objects))
      ensures elems == InsertAt(old(elems), |old(elems)|, pElement)
      ensures nodes != [] && nodes == InsertAt(old(nodes), |old(nodes)|, nodes[|nodes| - 1])
    {
      hide MemoryPoolFactory.Valid, Distinct, Chained, Carries, Wrap16, InsertAt;
      nodePool.NodesOutside();
      var newNode := NewNode(pElement);
      InsertFacts(nodes, |nodes|, newNode);
      nodePool.NodesOutside();
      if pTail == null {
        pTail := newNode;
        pHead := pTail;
        SingleChained(newNode);
      } else {
        assert pTail in NodeSet(nodes);
        LinkTail(newNode, pTail, nodes);
        pTail := newNode;
      }
      ghost var d := InsertAt(nodes, |nodes|, newNode);
      assert Chained(d);
      Adopt(newNode, |nodes|);
      assert Chained(d);
    }

    /** The splice at the end of InsertBefore. */
    method PutBetween(pElement: int, pAfter: Node, pCurrent: Node, ghost i: nat)
      requires Valid() && 0 < i < |nodes| && nodes[i - 1] == pAfter && nodes[i] == pCurrent
      modifies this, nodePool.Repr, nodePool.objects
      ensures Valid()
      ensures fresh(nodePool.Repr - old(nodePool.Repr)) && fresh(nodePool.objects - old(nodePool.objects))
      ensures |old(elems)| == |old(nodes)| && elems == InsertAt(old(elems), i, pElement)
      ensures i < |nodes| && nodes == InsertAt(old(nodes), i, nodes[i])
    {
      hide MemoryPoolFactory.Valid, Distinct, Chained, Carries, Wrap16, InsertAt;
      SameLength(nodes, elems);
      nodePool.NodesOutside();
      assert pAfter in NodeSet(nodes) && pCurrent in NodeSet(nodes);
      var newNode := NewNode(pElement);
      InsertFacts(nodes, i, newNode);
      nodePool.NodesOutside();
      LinkBetween(newNode, pAfter, pCurrent, nodes, i);
      ghost var d := InsertAt(nodes, i, newNode);
      assert Chained(d);
      Adopt(newNode, i);
      assert Chained(d);
    }

    /** The walk of InsertBefore and InsertpAfter. */
    method WalkForward(index: int) returns (pAfter: Node?, pCurrent: Node?)
      requires Shaped()
      ensures index <= 0 ==> pAfter == null && pCurrent == NodeAt(nodes, 0)
      ensures 0 < index < |nodes| ==> pAfter == nodes[index - 1] && pCurrent == nodes[index]
      ensures 0 < index && |nodes| <= index ==> pCurrent == null
    {
      hide Distinct, Chained, Carries, Wrap16, NodeAt;
      pAfter, pCurrent := null, pHead;
      var left := index;
      ghost var k: nat := 0;
      AtPlace(nodes, -1);
      AtPlace(nodes, 0);
      while 0 < left && pCurrent != null
        invariant 0 <= k <= |nodes| && left == index - k && (0 <= left || k == 0)
        invariant pCurrent == NodeAt(nodes, k) && pAfter == NodeAt(nodes, k - 1)
      {
        AtPlace(nodes, k);
        NextOf(nodes, k);
        pAfter := pCurrent;
        pCurrent := pCurrent.pNext;
        left := left - 1;
        k := k + 1;
      }
      AtPlace(nodes, k);
      AtPlace(nodes, k - 1);
    }

    /** InsertBefore, for every index; `crashed` is the dereference of a null pointer. */
    method InsertBefore(pElement: int, index: int) returns (crashed: bool)
      requires Valid()
      modifies this, nodePool.Repr, nodePool.objects
      ensures Valid()
      ensures fresh(nodePool.Repr - old(nodePool.Repr)) && fresh(nodePool.objects - old(nodePool.objects))
      ensures InsertBeforeOutcome(old(elems), pElement, index)
           == if crashed then NullDereference else Returned(0, elems)
      ensures crashed <==> index < 0 || (0 < index && |old(elems)| <= index)
      ensures !crashed ==> Gained(old(elems), elems, index, pElement)
      ensures crashed ==> elems == old(elems) && nodes == old(nodes)
      ensures !crashed ==>
        0 <= index <= |old(nodes)| && index < |nodes| && nodes == InsertAt(old(nodes), index, nodes[index])
    {
      hide MemoryPoolFactory.Valid, Distinct, Chained, Carries, Wrap16, InsertAt, NodeAt;
      SameLength(nodes, elems);
      InsertBeforeExactly(elems, pElement, index);
      crashed := false;
      if index == 0 {
        AddHead(pElement);
      } else {
        var pAfter, pCurrent := WalkForward(index);
        if pCurrent == null || pAfter == null {
          crashed := true;
        } else {
          PutBetween(pElement, pAfter, pCurrent, index);
        }
      }
    }

    /** The state InsertpAfter leaves: all is well but for the back links around place i. */
    ghost predicate BrokenAt(i: nat)
      reads this, nodePool, nodePool.Repr, NodeSet(nodes)
    {
      && Pooled() && Distinct(nodes) && Carries(nodes, elems) && nCount == Wrap16(|nodes|)
      && 0 < i && i + 1 < |nodes| && Miswired(nodes, i)
      && pHead == nodes[0] && pTail == if i + 2 == |nodes| then nodes[i] else nodes[|nodes| - 1]
    }

    /** The middle branch of InsertpAfter. */
    method PutAfter(pElement: int, pAfter: Node, pCurrent: Node, ghost i: nat)
      requires Valid() && 0 < i < |nodes| && nodes[i - 1] == pAfter && nodes[i] == pCurrent
      modifies this, nodePool.Repr, nodePool.objects
      ensures fresh(nodePool.Repr - old(nodePool.Repr)) && fresh(nodePool.objects - old(nodePool.objects))
      ensures BrokenAt(i) && |old(elems)| == |old(nodes)| && elems == InsertAt(old(elems), i + 1, pElement)
    {
      hide MemoryPoolFactory.Valid, Distinct, Chained, Carries, Wrap16, Miswired, InsertAt;
      SameLength(nodes, elems);
      nodePool.NodesOutside();
      assert pAfter in NodeSet(nodes) && pCurrent in NodeSet(nodes);
      var newNode := NewNode(pElement);
      InsertFacts(nodes, i + 1, newNode);
      InsertKeepsEnds(nodes, i, newNode);
      nodePool.NodesOutside();
      LinkAfter(newNode, pAfter, pCurrent, nodes, i);
      ghost var d := InsertAt(nodes, i + 1, newNode);
      assert Miswired(d, i);
      Adopt(newNode, i + 1);
      assert Miswired(d, i);
    }

    /** InsertpAfter, for every index and every length of the list. */
    method InsertpAfter(pElement: int, index: int) returns (crashed: bool)
      requires Valid()
      modifies this, nodePool.Repr, nodePool.objects
      ensures fresh(nodePool.Repr - old(nodePool.Repr)) && fresh(nodePool.objects - old(nodePool.objects))
      ensures match InsertpAfterOutcome(old(elems), pElement, index)
        case Returned(_, es) => !crashed && Valid() && elems == es
        case BackLinksBroken(es, at) => !crashed && BrokenAt(at) && !Valid() && elems == es
        case NullDereference => crashed && Valid() && elems == old(elems)
    {
      hide MemoryPoolFactory.Valid, Distinct, Chained, Carries, Wrap16, Miswired, InsertAt, NodeAt;
      SameLength(nodes, elems);
      crashed := false;
      if index == nCount - 1 {
        AddTail(pElement);
      } else {
        var pAfter, pCurrent := WalkForward(index);
        if pCurrent == null || pAfter == null {
          crashed := true;
        } else {
          PutAfter(pElement, pAfter, pCurrent, index);
          MiswiredNotChained(nodes, index);
        }
      }
    }

    /** m_pNodePool->Free of the node at place i, once the links no longer need it. */
    method Release(pNode: Node, ghost i: nat)
      requires Pooled() && i < |nodes| && nodes[i] == pNode && Distinct(nodes) && Carries(nodes, elems)
      requires Chained(Without(nodes, i))
      modifies this`nodes, this`elems, nodePool.Repr
      ensures Pooled() && Distinct(nodes) && Carries(nodes, elems) && Chained(nodes)
      ensures nodes == Without(old(nodes), i) && |old(elems)| == |old(nodes)| && elems == Without(old(elems), i)
      ensures nodePool.Repr == old(nodePool.Repr) && nodePool.objects == old(nodePool.objects)
    {
      hide MemoryPoolFactory.Valid, Distinct, Chained, Carries, Wrap16;
      nodePool.NodesOutside();
      SameLength(nodes, elems);
      WithoutFacts(nodes, i);
      WithoutCarries(nodes, elems, i);
      assert pNode in NodeSet(nodes);
      nodePool.Free(pNode);
      nodes, elems := Without(nodes, i), Without(elems, i);
    }

    method DeleteHead() returns (pElement: int)
      requires Valid()
      modifies this, nodePool.Repr, NodeSet(nodes)
      ensures Valid() && nodePool.Repr == old(nodePool.Repr) && nodePool.objects == old(nodePool.objects)
      ensures |old(elems)| == |old(nodes)|
      ensures old(nodes) == [] ==> pElement == 0 && nodes == [] && elems == []
      ensures old(nodes) != [] ==>
        pElement == old(elems)[0] && elems == Without(old(elems), 0) && nodes == Without(old(nodes), 0)
    {
      hide MemoryPoolFactory.Valid, Distinct, Chained, Carries, Wrap16;
      SameLength(nodes, elems);
      if pHead == null {
        return 0;
      }
      FirstNode(nodes, elems);
      WrapSteps(|nodes|);
      nodePool.NodesOutside();
      if pHead == pTail {
        pElement := pTail.pElement;
        NoneChained(nodes);
        Release(pHead, 0);
        pHead, pTail := null, null;
        nCount := 0;
        assert nCount == Wrap16(|nodes|) by { CountIsLength(0); }
      } else {
        var pCurrent := pHead;
        pHead := pHead.pNext;
        UnlinkHead(pHead, nodes);
        pElement := pCurrent.pElement;
        Release(pCurrent, 0);
        nCount := Wrap16(nCount - 1);
      }
    }

    method DropTail(pAfter: Node, pCurrent: Node) returns (pElement: int)
      requires Valid() && |nodes| >= 2 && nodes[|nodes| - 2] == pAfter && nodes[|nodes| - 1] == pCurrent
      modifies this, nodePool.Repr, NodeSet(nodes)
      ensures Valid() && nodePool.Repr == old(nodePool.Repr) && nodePool.objects == old(nodePool.objects)
      ensures |old(elems)| == |old(nodes)|
      ensures var last := |old(nodes)| - 1;
        && pElement == old(elems)[last] && elems == Without(old(elems), last) && nodes == Without(old(nodes), last)
    {
      hide MemoryPoolFactory.Valid, Distinct, Chained, Carries, Wrap16;
      FirstNode(nodes, elems);
      WrapSteps(|nodes|);
      nodePool.NodesOutside();
      assert pAfter in NodeSet(nodes);
      UnlinkTail(pAfter, nodes);
      pTail := pAfter;
      pElement := pCurrent.pElement;
      Release(pCurrent, |nodes| - 1);
      nCount := Wrap16(nCount - 1);
    }

    /** DeleteTail walks from the head to find the node before the tail. */
    method DeleteTail() returns (pElement: int)
      requires Valid()
      modifies this, nodePool.Repr, NodeSet(nodes)
      ensures Valid() && nodePool.Repr == old(nodePool.Repr) && nodePool.objects == old(nodePool.objects)
      ensures |old(elems)| == |old(nodes)|
      ensures old(nodes) == [] ==> pElement == 0 && nodes == [] && elems == []
      ensures old(nodes) != [] ==> var last := |old(nodes)| - 1;
        pElement == old(elems)[last] && elems == Without(old(elems), last) && nodes == Without(old(nodes), last)
    {
      hide MemoryPoolFactory.Valid, Distinct, Carries, Wrap16;
      SameLength(nodes, elems);
      if pTail == null {
        return 0;
      }
      FirstNode(nodes, elems);
      if pTail == pHead {
        pElement := pTail.pElement;
        NoneChained(nodes);
        nodePool.NodesOutside();
        Release(pTail, 0);
        pTail, pHead := null, null;
        nCount := 0;
        assert nCount == Wrap16(|nodes|) by { CountIsLength(0); }
      } else {
        var pAfter: Node := pHead;
        var pCurrent: Node := pHead.pNext;
        ghost var k: nat := 0;
        while pCurrent.pNext != null
          invariant k + 1 < |nodes| && pAfter == nodes[k] && pCurrent == nodes[k + 1]
          decreases |nodes| - k
        {
          pAfter := pCurrent;
          pCurrent := pAfter.pNext;
          k := k + 1;
        }
        pElement := DropTail(pAfter, pCurrent);
      }
    }

    /** The middle branch of DeletePos and DeleteAt. */
    method DropBetween(pAfter: Node, pCurrent: Node, ghost i: nat) returns (pElement: int)
      requires Valid() && 0 < i < |nodes| - 1 && nodes[i - 1] == pAfter && nodes[i] == pCurrent
      modifies this, nodePool.Repr, NodeSet(nodes)
      ensures Valid() && nodePool.Repr == old(nodePool.Repr) && nodePool.objects == old(nodePool.objects)
      ensures |old(elems)| == |old(nodes)|
        && pElement == old(elems)[i] && elems == Without(old(elems), i) && nodes == Without(old(nodes), i)
    {
      hide MemoryPoolFactory.Valid, Distinct, Chained, Carries, Wrap16;
      SameLength(nodes, elems);
      ElementAt(nodes, elems, i);
      WrapSteps(|nodes|);
      nodePool.NodesOutside();
      assert pAfter in NodeSet(nodes) && nodes[i + 1] in NodeSet(nodes);
      UnlinkBetween(pAfter, pCurrent, nodes[i + 1], nodes, i);
      pElement := pCurrent.pElement;
      Release(pCurrent, i);
      nCount := Wrap16(nCount - 1);
    }

    /** The search loop of DeletePos for a node that is neither head nor tail. */
    method WalkTo(pos: Node, ghost p: nat) returns (pAfter: Node, pCurrent: Node)
      requires Shaped() && 0 < p < |nodes| && nodes[p] == pos && pos != pHead
      ensures pAfter == nodes[p - 1] && pCurrent == nodes[p]
    {
      hide Distinct, Carries, Wrap16;
      pAfter := pHead;
      pCurrent := pHead.pNext;
      ghost var k: nat := 1;
      while pCurrent != pos
        invariant 0 < k <= p && pAfter == nodes[k - 1] && pCurrent == nodes[k]
        decreases p - k
      {
        pAfter := pCurrent;
        pCurrent := pCurrent.pNext;
        k := k + 1;
      }
      OnlyAt(nodes, p);
    }

    /** DeletePos: `pos` is a node of the list or null; it comes back as the head after a head deletion, and as the
        preceding node otherwise. Null is dereferenced if `pos` is null and the list is not empty. */
    method DeletePos(pos: Node?) returns (pElement: int, newPos: Node?, crashed: bool)
      requires Valid() && (pos != null ==> pos in nodes)
      modifies this, nodePool.Repr, NodeSet(nodes)
      ensures Valid() && nodePool.Repr == old(nodePool.Repr) && nodePool.objects == old(nodePool.objects)
      ensures |old(elems)| == |old(nodes)|
      ensures crashed <==> pos == null && old(nodes) != []
      ensures crashed ==> nodes == old(nodes) && elems == old(elems)
      ensures pos == null && !crashed ==> pElement == 0 && newPos == null && nodes == [] && elems == []
      ensures forall i :: 0 <= i < |old(nodes)| && pos == old(nodes)[i] ==>
        && pElement == old(elems)[i] && elems == Without(old(elems), i) && nodes == Without(old(nodes), i)
        && newPos == NodeAt(nodes, if i == 0 then 0 else i - 1)
    {
      hide MemoryPoolFactory.Valid, Distinct, Chained, Carries, Wrap16;
      SameLength(nodes, elems);
      crashed := false;
      ghost var p: nat := 0;
      if pos != null {
        p :| 0 <= p < |nodes| && nodes[p] == pos;
        OnlyAt(nodes, p);
      }
      if pHead == pos {
        pElement := DeleteHead();
        newPos := pHead;
      } else if pTail == pos {
        pElement := DeleteTail();
        newPos := pTail;
      } else {
        if pos == null {
          return 0, null, true;
        }
        var pAfter, pCurrent := WalkTo(pos, p);
        pElement := DropBetween(pAfter, pCurrent, p);
        newPos := pAfter;
      }
    }

    /** DeleteAll frees every node and resets the ends; nothing stays outstanding. */
    method DeleteAll()
      requires Valid()
      modifies this, nodePool.Repr
      ensures Valid() && nodes == [] && elems == [] && nodePool.out == {}
      ensures nodePool.Repr == old(nodePool.Repr) && nodePool.objects == old(nodePool.objects)
    {
      hide MemoryPoolFactory.Valid, Distinct, Chained, Carries, Wrap16, NodeSet;
      nodePool.NodesOutside();
      assert nodes[0..] == nodes;
      var pCurrent := pHead;
      ghost var k: nat := 0;
      while pCurrent != null
        invariant k <= |nodes| && pCurrent == NodeAt(nodes, k)
        invariant this !in nodePool.Repr && nodePool.Valid() && nodePool.out == NodeSet(nodes[k..])
        invariant nodes == old(nodes) && Distinct(nodes) && Chained(nodes)
        invariant nodePool.Repr == old(nodePool.Repr) && nodePool.objects == old(nodePool.objects)
        decreases |nodes| - k
      {
        DrainStep(nodes, k);
        var pAfter := pCurrent.pNext;
        nodePool.Free(pCurrent);
        nodePool.NodesOutside();
        pCurrent := pAfter;
        k := k + 1;
      }
      assert nodes[k..] == [];
      pHead, pTail := null, null;
      nCount := 0;
      nodes, elems := [], [];
      assert nCount == Wrap16(|nodes|) by { CountIsLength(0); }
      NothingCarried();
    }

    /** The walk of DeleteAt: it starts at the second node and still takes `index` steps. Each step dereferences the
        node it is at, and so does what follows the walk, twice; null ends it early. */
    method WalkAhead(index: int) returns (pAfter: Node?, pCurrent: Node?, crashed: bool)
      requires Shaped()
      ensures crashed <==> !(0 <= index && index + 2 < |nodes|)
      ensures !crashed ==> pAfter == nodes[index] && pCurrent == nodes[index + 1]
    {
      hide Distinct, Chained, Carries, Wrap16;
      pAfter, pCurrent, crashed := pHead, null, true;
      if pHead == null {
        return;
      }
      NextOf(nodes, 0);
      pCurrent := pHead.pNext;
      var left := index;
      ghost var k: nat := 0;
      while left != 0
        invariant index < 0 || 0 <= left
        invariant left == index - k && k < |nodes| && pAfter == nodes[k] && pCurrent == NodeAt(nodes, k + 1)
        decreases |nodes| - k
      {
        left := left - 1;
        if pCurrent == null {
          return;
        }
        NextOf(nodes, k + 1);
        pAfter := pCurrent;
        pCurrent := pCurrent.pNext;
        k := k + 1;
      }
      if pCurrent == null {
        return;
      }
      NextOf(nodes, k + 1);
      crashed := pCurrent.pNext == null;
    }

    /** DeleteAt, for every index and every length of the list; `crashed` is the dereference of a null pointer. */
    method DeleteAt(index: int) returns (pElement: int, crashed: bool)
      requires Valid()
      modifies this, nodePool.Repr, NodeSet(nodes)
      ensures Valid() && nodePool.Repr == old(nodePool.Repr) && nodePool.objects == old(nodePool.objects)
      ensures DeleteAtOutcome(old(elems), index) == if crashed then NullDereference else Returned(pElement, elems)
      ensures crashed ==> elems == old(elems) && nodes == old(nodes)
    {
      hide MemoryPoolFactory.Valid, Distinct, Chained, Carries, Wrap16, Without;
      SameLength(nodes, elems);
      pElement, crashed := 0, false;
      if index == 0 {
        pElement := DeleteHead();
      } else if index == nCount - 1 {
        pElement := DeleteTail();
      } else {
        var pAfter, pCurrent;
        pAfter, pCurrent, crashed := WalkAhead(index);
        if !crashed {
          pElement := DropBetween(pAfter, pCurrent, index + 1);
        }
      }
    }

    // ----- Positions

    method GetHead() returns (e: int)
      requires Valid() && nodes != []
      ensures |elems| == |nodes| && e == elems[0]
    {
      e := pHead.pElement;
    }

    method GetTail() returns (e: int)
      requires Valid() && nodes != []
      ensures |elems| == |nodes| && e == elems[|elems| - 1]
    {
      e := pTail.pElement;
    }

    /** GetPosIndex: the place of a position, -1 for anything that is not one. */
    method GetPosIndex(pos: Node?) returns (index: int)
      requires Valid()
      ensures index == PlaceOf(nodes, pos)
      ensures -1 <= index < |nodes| && if index == -1 then pos !in nodes else nodes[index] == pos
    {
      hide MemoryPoolFactory.Valid, Distinct, Carries, Wrap16;
      var pCurrent := pHead;
      index := 0;
      while pCurrent != null
        invariant 0 <= index <= |nodes| && pCurrent == NodeAt(nodes, index)
        invariant pos !in nodes[..index]
        decreases |nodes| - index
      {
        if pos == pCurrent {
          FirstPlace(nodes, pos, index);
          return;
        }
        assert nodes[..index + 1] == nodes[..index] + [nodes[index]];
        pCurrent := pCurrent.pNext;
        index := index + 1;
      }
      assert nodes[..index] == nodes;
      NoPlace(nodes, pos);
      index := -1;
    }

    /** GetIndexPos: null beyond the end; a negative index gives the head. */
    method GetIndexPos(index: int) returns (pos: Node?)
      requires Valid()
      ensures pos == NodeAt(nodes, if index < 0 then 0 else index)
    {
      hide MemoryPoolFactory.Valid, Distinct, Carries, Wrap16;
      pos := pHead;
      var left := index;
      while 0 < left && pos != null
        invariant left <= index && (0 <= left || left == index)
        invariant pos == NodeAt(nodes, if index < 0 then 0 else index - left)
        invariant left < index ==> index - left <= |nodes|
      {
        pos := pos.pNext;
        left := left - 1;
      }
    }

    /** GetNextPos: the element at a position, and the following position (null after the tail). On any node it reads
        two fields; what they mean is known of a well-formed list. */
    method GetNextPos(pos: Node?) returns (e: int, next: Node?)
      ensures if pos == null then e == 0 && next == null else e == pos.pElement && next == pos.pNext
      ensures Valid() ==> |elems| == |nodes|
      ensures Valid() ==> forall i :: 0 <= i < |nodes| && nodes[i] == pos ==>
        e == elems[i] && next == NodeAt(nodes, i + 1)
    {
      if pos != null {
        e, next := pos.pElement, pos.pNext;
      } else {
        e, next := 0, null;
      }
    }

    /** GetPrevPos. */
    method GetPrevPos(pos: Node?) returns (e: int, prev: Node?)
      ensures if pos == null then e == 0 && prev == null else e == pos.pElement && prev == pos.pPrev
      ensures Valid() ==> |elems| == |nodes|
      ensures Valid() ==> forall i :: 0 <= i < |nodes| && nodes[i] == pos ==>
        e == elems[i] && prev == NodeAt(nodes, i - 1)
    {
      if pos != null {
        e, prev := pos.pElement, pos.pPrev;
      } else {
        e, prev := 0, null;
      }
    }
  }

  /** Index to position and position to index are mutual inverses on a list's own indices and positions. */
  lemma PositionsInvert(nodes: seq<Node>)
    requires Distinct(nodes)
    ensures forall i :: 0 <= i < |nodes| ==> PlaceOf(nodes, NodeAt(nodes, i)) == i
    ensures forall n :: n in nodes ==> NodeAt(nodes, PlaceOf(nodes, n)) == n
  {
    forall i: nat | i < |nodes| ensures PlaceOf(nodes, NodeAt(nodes, i)) == i {
      FirstPlace(nodes, nodes[i], i);
    }
  }
}
