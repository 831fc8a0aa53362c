/** CList over whole runs, and its iterators (List.h). */
module PooledListRuns {
  import opened ListOutcomes
  import opened MemoryPool
  import opened NodeChain
  import opened PooledList

  // ----- Runs of operations

  /** The operations that keep a list well formed; a position is obtained from an index. */
  datatype ListOp =
    | AddHead(e: int)
    | AddTail(e: int)
    | DeleteHead
    | DeleteTail
    | InsertBefore(e: int, index: int)
    | DeleteAt(index: int)
    | DeletePos(index: int)
    | DeleteAll

  /** One operation on a plain sequence. */
  function ListStep(s: seq<int>, op: ListOp): Outcome {
    match op
    case AddHead(e) => Returned(0, [e] + s)
    case AddTail(e) => Returned(0, s + [e])
    case DeleteHead => if s == [] then Returned(0, []) else Returned(s[0], s[1..])
    case DeleteTail => if s == [] then Returned(0, []) else Returned(s[|s| - 1], s[..|s| - 1])
    case InsertBefore(e, index) => InsertBeforeOutcome(s, e, index)
    case DeleteAt(index) => DeleteAtOutcome(s, index)
    case DeletePos(index) => DeletePosOutcome(s, index)
    case DeleteAll => Returned(0, [])
  }

  /** What a run returns and leaves; it ends at the first null dereference. */
  datatype ListTrace = ListTrace(results: seq<int>, elems: seq<int>, crashed: bool)

  function Prefixed(results: seq<int>, t: ListTrace): ListTrace {
    t.(results := results + t.results)
  }

  function ListRun(s: seq<int>, ops: seq<ListOp>): ListTrace
    decreases |ops|
  {
    if ops == [] then ListTrace([], s, false)
    else
      match ListStep(s, ops[0])
      case Returned(value, rest) => Prefixed([value], ListRun(rest, ops[1..]))
      case _ => ListTrace([], s, true)
  }

  lemma PrefixedTwice(a: seq<int>, b: seq<int>, t: ListTrace)
    ensures Prefixed(a, Prefixed(b, t)) == Prefixed(a + b, t)
    ensures Prefixed([], t) == t
  {
  }

  /** The ends, as plain slices. */
  lemma EndSlices(s: seq<int>, e: int)
    ensures InsertAt(s, 0, e) == [e] + s && InsertAt(s, |s|, e) == s + [e]
    ensures s != [] ==> Without(s, 0) == s[1..] && Without(s, |s| - 1) == s[..|s| - 1]
  {
  }

  /** One operation on a real list. */
  method DriveStep(list: CList, op: ListOp) returns (value: int, crashed: bool)
    requires list.Valid()
    modifies list, list.nodePool.Repr, list.nodePool.objects
    ensures list.Valid()
    ensures fresh(list.nodePool.Repr - old(list.nodePool.Repr))
    ensures fresh(list.nodePool.objects - old(list.nodePool.objects))
    ensures ListStep(old(list.elems), op) == if crashed then NullDereference else Returned(value, list.elems)
    ensures crashed ==> list.elems == old(list.elems)
  {
    hide MemoryPoolFactory.Valid, Distinct, Chained, Carries, Wrap16, InsertAt, Without, NodeAt;
    hide DeleteAtOutcome, InsertBeforeOutcome;
    list.nodePool.NodesOutside();
    SameLength(list.nodes, list.elems);
    value, crashed := 0, false;
    match op {
      case AddHead(e) =>
        EndSlices(list.elems, e);
        list.AddHead(e);
      case AddTail(e) =>
        EndSlices(list.elems, e);
        list.AddTail(e);
      case DeleteHead =>
        EndSlices(list.elems, 0);
        value := list.DeleteHead();
      case DeleteTail =>
        EndSlices(list.elems, 0);
        value := list.DeleteTail();
      case InsertBefore(e, index) =>
        crashed := list.InsertBefore(e, index);
      case DeleteAt(index) =>
        value, crashed := list.DeleteAt(index);
        if crashed {
          value := 0;
        }
      case DeletePos(index) =>
        AtPlace(list.nodes, if index < 0 then 0 else index);
        var pos := list.GetIndexPos(index);
        value, pos, crashed := list.DeletePos(pos);
      case DeleteAll =>
        list.DeleteAll();
    }
  }

  /** A real list over any run: what it returns, what it holds and where it stops are as on a plain sequence. That it
      is well formed includes that exactly its nodes are out of the pool. */
  method DriveList(list: CList, ops: seq<ListOp>) returns (results: seq<int>, crashed: bool)
    requires list.Valid()
    modifies list, list.nodePool.Repr, list.nodePool.objects
    ensures list.Valid()
    ensures fresh(list.nodePool.Repr - old(list.nodePool.Repr))
    ensures fresh(list.nodePool.objects - old(list.nodePool.objects))
    ensures ListRun(old(list.elems), ops) == ListTrace(results, list.elems, crashed)
  {
    hide CList.Valid, ListStep;
    ghost var start := list.elems;
    results, crashed := [], false;
    assert ops[0..] == ops;
    PrefixedTwice([], [], ListRun(start, ops));
    for i := 0 to |ops|
      invariant list.Valid()
      invariant fresh(list.nodePool.Repr - old(list.nodePool.Repr))
      invariant fresh(list.nodePool.objects - old(list.nodePool.objects))
      invariant ListRun(start, ops) == Prefixed(results, ListRun(list.elems, ops[i..]))
    {
      assert ops[i..][0] == ops[i] && ops[i..][1..] == ops[i + 1..];
      ghost var before := list.elems;
      var value;
      value, crashed := DriveStep(list, ops[i]);
      if crashed {
        return;
      }
      PrefixedTwice(results, [value], ListRun(list.elems, ops[i + 1..]));
      results := results + [value];
    }
  }

  /** After any run that does not crash, and DeleteAll, no node is out of the pool. */
  method DriveAndClear(list: CList, ops: seq<ListOp>) returns (crashed: bool)
    requires list.Valid()
    modifies list, list.nodePool.Repr, list.nodePool.objects
    ensures !crashed ==> list.Valid() && list.elems == [] && list.nodePool.out == {}
  {
    var results;
    results, crashed := DriveList(list, ops);
    list.DeleteAll();
  }

  // ----- Iterators

  /** What a caller collects by calling GetNextPos until the position is null, giving up after `fuel` calls. */
  ghost function NextRun(among: set<Node>, pos: Node?, fuel: nat): seq<int>
    reads among
    decreases fuel
  {
    if pos == null || pos !in among || fuel == 0 then [] else [pos.pElement] + NextRun(among, pos.pNext, fuel - 1)
  }

  ghost function PrevRun(among: set<Node>, pos: Node?, fuel: nat): seq<int>
    reads among
    decreases fuel
  {
    if pos == null || pos !in among || fuel == 0 then [] else [pos.pElement] + PrevRun(among, pos.pPrev, fuel - 1)
  }

  function Backwards(s: seq<int>): (r: seq<int>)
    ensures |r| == |s|
  {
    if s == [] then [] else [s[|s| - 1]] + Backwards(s[..|s| - 1])
  }

  lemma {:induction false} NextRunFrom(nodes: seq<Node>, elems: seq<int>, i: nat, fuel: nat)
    requires Onward(nodes) && Carries(nodes, elems) && i <= |nodes| <= i + fuel
    ensures |elems| == |nodes| && NextRun(NodeSet(nodes), NodeAt(nodes, i), fuel) == elems[i..]
    decreases |nodes| - i
  {
    hide Carries, NodeAt;
    SameLength(nodes, elems);
    AtPlace(nodes, i);
    if i == |nodes| {
    } else {
      ElementAt(nodes, elems, i);
      NextRunFrom(nodes, elems, i + 1, fuel - 1);
      assert elems[i..] == [elems[i]] + elems[i + 1..];
    }
  }

  lemma PrevOf(nodes: seq<Node>, k: nat)
    requires Chained(nodes) && k < |nodes|
    ensures nodes[k].pPrev == NodeAt(nodes, k - 1)
  {
  }

  lemma {:induction false} PrevRunFrom(nodes: seq<Node>, elems: seq<int>, i: nat, fuel: nat)
    requires Chained(nodes) && Carries(nodes, elems) && i <= |nodes| && i <= fuel
    ensures |elems| == |nodes| && PrevRun(NodeSet(nodes), NodeAt(nodes, i - 1), fuel) == Backwards(elems[..i])
    decreases i
  {
    hide Chained, Carries;
    SameLength(nodes, elems);
    if i == 0 {
    } else {
      PrevOf(nodes, i - 1);
      ElementAt(nodes, elems, i - 1);
      PrevRunFrom(nodes, elems, i - 1, fuel - 1);
      assert elems[..i][..i - 1] == elems[..i - 1];
    }
  }

  /** Iterating from the first position yields the elements, from the last their reverse, and both then stop. */
  lemma TraversalsYieldElements(list: CList, fuel: nat)
    requires list.Valid() && |list.nodes| <= fuel
    ensures NextRun(NodeSet(list.nodes), list.pHead, fuel) == list.elems
    ensures PrevRun(NodeSet(list.nodes), list.pTail, fuel) == Backwards(list.elems)
  {
    NextRunFrom(list.nodes, list.elems, 0, fuel);
    PrevRunFrom(list.nodes, list.elems, |list.nodes|, fuel);
    assert list.elems[0..] == list.elems && list.elems[..|list.nodes|] == list.elems;
  }

  /** The iteration with the real GetNextPos, from the first position until there is none. */
  method CollectForward(list: CList) returns (es: seq<int>)
    requires list.Valid()
    ensures es == list.elems
  {
    hide MemoryPoolFactory.Valid, Distinct, Chained, Carries, Wrap16, NodeAt;
    SameLength(list.nodes, list.elems);
    es := [];
    var pos := list.pHead;
    ghost var k: nat := 0;
    AtPlace(list.nodes, 0);
    while pos != null
      invariant k <= |list.nodes| && pos == NodeAt(list.nodes, k) && es == list.elems[..k]
      decreases |list.nodes| - k
    {
      AtPlace(list.nodes, k);
      var e;
      e, pos := list.GetNextPos(pos);
      assert list.elems[..k + 1] == list.elems[..k] + [list.elems[k]];
      es := es + [e];
      k := k + 1;
    }
    AtPlace(list.nodes, k);
  }

  /** The iteration with the real GetPrevPos, from the last position until there is none. */
  method CollectBackward(list: CList) returns (es: seq<int>)
    requires list.Valid()
    ensures es == Backwards(list.elems)
  {
    hide MemoryPoolFactory.Valid, Distinct, Chained, Carries, Wrap16, NodeAt;
    SameLength(list.nodes, list.elems);
    es := [];
    var pos := list.pTail;
    ghost var k: nat := |list.nodes|;
    assert list.elems[..k] == list.elems;
    while pos != null
      invariant k <= |list.nodes| && pos == NodeAt(list.nodes, k - 1)
      invariant es + Backwards(list.elems[..k]) == Backwards(list.elems)
      decreases k
    {
      AtPlace(list.nodes, k - 1);
      var e;
      e, pos := list.GetPrevPos(pos);
      assert list.elems[..k][..k - 1] == list.elems[..k - 1];
      es := es + [e];
      k := k - 1;
    }
    AtPlace(list.nodes, k - 1);
    assert es + [] == es;
  }

  // ----- After InsertpAfter

  /** Forward, the list InsertpAfter leaves reads as it should. */
  lemma BrokenStillForward(list: CList, i: nat, fuel: nat)
    requires list.BrokenAt(i) && |list.nodes| <= fuel
    ensures NextRun(NodeSet(list.nodes), list.pHead, fuel) == list.elems
  {
    NextRunFrom(list.nodes, list.elems, 0, fuel);
    assert list.elems[0..] == list.elems;
  }

  /** Backward, the real iteration never comes to an end: after any number of calls there is still a position. */
  method CollectBackwardBroken(list: CList, calls: nat, ghost i: nat) returns (pos: Node?)
    requires list.BrokenAt(i)
    ensures pos != null
  {
    hide MemoryPoolFactory.Valid, Distinct, Carries, Wrap16, Onward, NodeAt;
    pos := list.pTail;
    ghost var j := if i + 2 == |list.nodes| then i else |list.nodes| - 1;
    for call := 0 to calls
      invariant i - 1 <= j < |list.nodes| && pos == list.nodes[j]
    {
      AtPlace(list.nodes, j - 1);
      var e;
      e, pos := list.GetPrevPos(pos);
      j := if j == i - 1 then i + 1 else if j == i + 2 then i else j - 1;
    }
  }
}
