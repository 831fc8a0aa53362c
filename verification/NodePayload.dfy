/** What nList and nNode leave alone: the user data of every node, and all memory that is no object's (nnode.h). */
module NodePayload {
  import opened WordMemory
  import opened ListRuns

  // ----- User data

  lemma LinkKeepsPtr(m: Words, w: World, l: nat, i: nat, n: nat, x: nat)
    requires Inv(m, w) && l in w.lists && i <= |w.lists[l]| && n in w.nodes && x in w.nodes
    ensures At(Link(m, Path(l, w.lists[l])[i], n, Path(l, w.lists[l])[i + 1]), x + 2) == At(m, x + 2)
  {
    hide Link, Path;
    assert x in Blocks(w) && n in Blocks(w);
    NoPtrOnPath(|m|, w, l, i, x);
    LinkLeaves(m, Path(l, w.lists[l])[i], n, Path(l, w.lists[l])[i + 1], x + 2);
  }

  lemma UnlinkKeepsPtr(m: Words, w: World, l: nat, i: nat, x: nat)
    requires Inv(m, w) && l in w.lists && i < |w.lists[l]| && x in w.nodes
    ensures At(Unlink(m, w.lists[l][i]), x + 2) == At(m, x + 2)
  {
    hide Unlink, Path;
    assert x in Blocks(w) && w.lists[l][i] in Blocks(w);
    Neighbours(m, w, l, i);
    NoPtrOnPath(|m|, w, l, i, x);
    NoPtrOnPath(|m|, w, l, i + 1, x);
    UnlinkLeaves(m, w.lists[l][i], x + 2);
  }

  lemma AfterCase(m: Words, w: World, pred: nat) returns (l: nat, i: nat)
    requires Inv(m, w) && IsPlace(w, pred) && At(m, pred) != 0
    ensures IsAfter(w, pred, l, i) && At(m, pred) == Path(l, w.lists[l])[i + 1]
  {
    SuccWordMeans(m, w, pred);
    l, i :| IsAfter(w, pred, l, i);
    assert Joined(m, Path(l, w.lists[l])[i], Path(l, w.lists[l])[i + 1]);
  }

  lemma BeforeCase(m: Words, w: World, succ: nat) returns (l: nat, i: nat)
    requires Inv(m, w) && IsPlace(w, succ) && At(m, succ + 1) != 0
    ensures IsBefore(w, succ, l, i) && At(m, succ + 1) == Path(l, w.lists[l])[i]
  {
    PredWordMeans(m, w, succ);
    l, i :| IsBefore(w, succ, l, i);
    assert Joined(m, Path(l, w.lists[l])[i], Path(l, w.lists[l])[i + 1]);
  }

  lemma MemberCase(m: Words, w: World, n: nat) returns (l: nat, i: nat)
    requires Inv(m, w) && n in w.nodes && At(m, n) != 0
    ensures IsMember(w, n, l, i)
  {
    IsLinkedMeans(m, w, n);
    MemberPlace(w, n);
    var k: nat, j: nat :| IsBefore(w, n, k, j) && IsAfter(w, n, k, j + 1);
    l, i := k, j;
  }

  /** The words an operation writes, by the place at which it works. */
  lemma StepCases(m: Words, w: World, op: Op) returns (l: nat, i: nat)
    requires Inv(m, w) && Callable(|m|, w, op) && MemStep(m, op).Done?
    requires !op.NewNode? && !op.NewList? && !op.SetPtr?
    ensures var m' := MemStep(m, op).state;
      || m' == m
      || (l in w.lists && i < |w.lists[l]| && m' == Unlink(m, w.lists[l][i]))
      || (l in w.lists && i <= |w.lists[l]| && (op.AddHead? || op.AddTail? || op.InsertBefore? || op.InsertAfter?)
          && op.n in w.nodes && m' == Link(m, Path(l, w.lists[l])[i], op.n, Path(l, w.lists[l])[i + 1]))
  {
    hide Link, Unlink;
    l, i := 0, 0;
    match op {
      case AddHead(k, n) => l, i := AfterCase(m, w, k);
      case AddTail(k, n) => l, i := BeforeCase(m, w, k + 1);
      case InsertAfter(n, pred) => l, i := AfterCase(m, w, pred);
      case InsertBefore(n, succ) => l, i := BeforeCase(m, w, succ);
      case Remove(n) => l, i := MemberCase(m, w, n);
      case RemHead(k) =>
        var s := w.lists[k];
        assert Wired(m, k, s) && Joined(m, Path(k, s)[0], Path(k, s)[1]);
        if s == [] {
        } else {
          l, i := k, 0;
        }
      case RemTail(k) =>
        var s := w.lists[k];
        TailWords(m, w, k);
        if s == [] {
        } else {
          l, i := k, |s| - 1;
        }
    }
  }

  lemma PtrWords(m: Words, w: World, op: Op, x: nat)
    requires Inv(m, w) && Callable(|m|, w, op) && (op.NewNode? || op.NewList? || op.SetPtr?) && x in w.nodes
    ensures At(MemStep(m, op).state, x + 2) == if op.SetPtr? && op.n == x then op.ptr else At(m, x + 2)
  {
    assert x in Blocks(w);
    assert op.SetPtr? ==> op.n in Blocks(w);
  }

  /** One step: only SetPtr changes the user data of a node that exists. */
  lemma StepKeepsPtrs(m: Words, w: World, op: Op, x: nat)
    requires Inv(m, w) && Callable(|m|, w, op) && MemStep(m, op).Done? && x in w.nodes
    ensures At(MemStep(m, op).state, x + 2) == if op.SetPtr? && op.n == x then op.ptr else At(m, x + 2)
  {
    hide Inv, Link, Unlink, MemInsertBefore, MemInsertAfter, MemRemove;
    if op.NewNode? || op.NewList? || op.SetPtr? {
      PtrWords(m, w, op, x);
    } else {
      var l, i := StepCases(m, w, op);
      if MemStep(m, op).state == m {
      } else if i < |w.lists[l]| && MemStep(m, op).state == Unlink(m, w.lists[l][i]) {
        UnlinkKeepsPtr(m, w, l, i, x);
      } else {
        LinkKeepsPtr(m, w, l, i, op.n, x);
      }
    }
  }

  /** The user data of these nodes is the same in both memories. */
  ghost predicate PtrsKept(m: Words, m': Words, nodes: set<nat>) {
    forall x :: x in nodes ==> At(m', x + 2) == At(m, x + 2)
  }

  lemma StepKeepsAll(m: Words, w: World, op: Op)
    requires Inv(m, w) && Callable(|m|, w, op) && MemStep(m, op).Done? && !op.SetPtr?
    ensures PtrsKept(m, MemStep(m, op).state, w.nodes)
  {
    hide Inv, MemStep, Callable;
    forall x | x in w.nodes ensures At(MemStep(m, op).state, x + 2) == At(m, x + 2) {
      StepKeepsPtrs(m, w, op, x);
    }
  }

  /** A new node holds the data it was constructed with. */
  lemma NewNodeHoldsPtr(m: Words, w: World, n: nat, ptr: nat)
    requires RoomFor(|m|, w, n)
    ensures MemStep(m, NewNode(n, ptr)).Done? && At(MemStep(m, NewNode(n, ptr)).state, n + 2) == ptr
  {
  }

  predicate Gives(op: Op, x: nat) {
    (op.NewNode? || op.SetPtr?) && op.n == x
  }

  /** What operations, if any, last gave node x as its user data. */
  function LastPtr(ops: seq<Op>, x: nat, before: nat): nat
    decreases |ops|
  {
    if ops == [] then before
    else LastPtr(ops[1..], x, if Gives(ops[0], x) then ops[0].ptr else before)
  }

  lemma LastPtrNone(x: nat, before: nat)
    ensures LastPtr([], x, before) == before
  {
  }

  lemma LastPtrUnfolds(ops: seq<Op>, x: nat, before: nat)
    requires ops != []
    ensures var op := ops[0];
      LastPtr(ops, x, before) == LastPtr(ops[1..], x, if Gives(op, x) then op.ptr else before)
  {
  }

  lemma NodesStayOne(w: World, op: Op)
    requires SeqStep(w, op).Done?
    ensures w.nodes <= SeqStep(w, op).state.nodes <= w.nodes + if op.NewNode? then {op.n} else {}
  {
  }

  lemma {:induction false} NodesStay(w: World, ops: seq<Op>)
    ensures w.nodes <= SeqRun(w, ops).state.nodes
    decreases |ops|
  {
    if ops == [] {
    } else if SeqStep(w, ops[0]).Done? {
      NodesStay(SeqStep(w, ops[0]).state, ops[1..]);
      NodesStayOne(w, ops[0]);
    }
  }

  /** After a step, a node that exists has what the step gave it, or what it had. */
  lemma StepGivesPtr(m: Words, w: World, op: Op, x: nat)
    requires Inv(m, w) && Callable(|m|, w, op) && MemStep(m, op).Done? && SeqStep(w, op).Done?
    requires x in SeqStep(w, op).state.nodes
    ensures x !in w.nodes ==> op.NewNode? && op.n == x
    ensures At(MemStep(m, op).state, x + 2) == if Gives(op, x) then op.ptr else At(m, x + 2)
  {
    hide Inv, MemStep, SeqStep;
    NodesStayOne(w, op);
    if x in w.nodes {
      StepKeepsPtrs(m, w, op, x);
      assert x in Blocks(w);
      assert op.NewNode? && op.n == x ==> !Apart(x, x);
    } else {
      NewNodeHoldsPtr(m, w, op.n, op.ptr);
    }
  }

  lemma TakeOne(ops: seq<Op>, k: nat)
    requires 0 < k <= |ops|
    ensures ops[..k][0] == ops[0] && ops[..k][1..] == ops[1..][..k - 1]
  {
  }

  lemma {:induction false} RunLength(w: World, ops: seq<Op>)
    ensures |SeqRun(w, ops).results| <= |ops|
    decreases |ops|
  {
    if ops == [] {
    } else if SeqStep(w, ops[0]).Done? {
      RunLength(SeqStep(w, ops[0]).state, ops[1..]);
    }
  }

  /** For a node constructed on the way it does not matter what stood there before. */
  lemma {:induction false} ConstructionCounts(w: World, ops: seq<Op>, x: nat, b: nat, c: nat)
    requires x !in w.nodes && x in SeqRun(w, ops).state.nodes
    ensures |SeqRun(w, ops).results| <= |ops|
    ensures var done := ops[..|SeqRun(w, ops).results|]; LastPtr(done, x, b) == LastPtr(done, x, c)
    decreases |ops|
  {
    hide LastPtr, SeqStep;
    if ops == [] {
    } else {
      var a, op := SeqStep(w, ops[0]), ops[0];
      RunLength(a.state, ops[1..]);
      TakeOne(ops, |SeqRun(w, ops).results|);
      var done := ops[..|SeqRun(w, ops).results|];
      LastPtrUnfolds(done, x, b);
      LastPtrUnfolds(done, x, c);
      NodesStayOne(w, op);
      if x !in a.state.nodes {
        var b', c' := if Gives(op, x) then op.ptr else b, if Gives(op, x) then op.ptr else c;
        ConstructionCounts(a.state, ops[1..], x, b', c');
      }
    }
  }

  /** Over every run: the user data of every node there was is what SetPtr last gave it, or else what it was; that of
      every node constructed on the way is what SetPtr last gave it, or else what its construction gave. No list
      operation changes it. */
  lemma {:induction false} RunKeepsPtrs(m: Words, w: World, ops: seq<Op>, x: nat)
    requires Inv(m, w) && AllCallable(|m|, w, ops) && x in SeqRun(w, ops).state.nodes
    ensures var t := MemRun(m, ops);
      |t.results| <= |ops| && At(t.state, x + 2) == LastPtr(ops[..|t.results|], x, At(m, x + 2))
    decreases |ops|
  {
    hide Inv, LastPtr, SeqStep, MemStep;
    RunAgrees(m, w, ops);
    RunLength(w, ops);
    LastPtrNone(x, At(m, x + 2));
    if ops == [] {
    } else {
      StepAgrees(m, w, ops[0]);
      var o, a, op := MemStep(m, ops[0]), SeqStep(w, ops[0]), ops[0];
      if a.Done? {
        RunKeepsPtrs(o.state, a.state, ops[1..], x);
        TakeOne(ops, |MemRun(m, ops).results|);
        LastPtrUnfolds(ops[..|MemRun(m, ops).results|], x, At(m, x + 2));
        if x in a.state.nodes {
          StepGivesPtr(m, w, op, x);
        } else {
          RunAgrees(o.state, a.state, ops[1..]);
          ConstructionCounts(a.state, ops[1..], x, At(o.state, x + 2), if Gives(op, x) then op.ptr else At(m, x + 2));
        }
      } else {
        assert ops[..0] == [];
      }
    }
  }

  // ----- Memory that is no object's

  ghost predicate Outside(w: World, a: nat) {
    forall b :: b in Blocks(w) ==> a < b || b + 3 <= a
  }

  lemma LinkOutside(m: Words, w: World, l: nat, i: nat, n: nat, a: nat)
    requires Inv(m, w) && l in w.lists && i <= |w.lists[l]| && n in w.nodes && Outside(w, a)
    ensures var p := Path(l, w.lists[l]); At(Link(m, p[i], n, p[i + 1]), a) == At(m, a)
  {
    hide Link;
    var s := w.lists[l];
    assert n in Blocks(w) && l in Blocks(w);
    if 0 < i { assert Path(l, s)[i] == s[i - 1]; assert s[i - 1] in Blocks(w); }
    if i < |s| { assert Path(l, s)[i + 1] == s[i]; assert s[i] in Blocks(w); }
    LinkLeaves(m, Path(l, s)[i], n, Path(l, s)[i + 1], a);
  }

  lemma UnlinkOutside(m: Words, w: World, l: nat, i: nat, a: nat)
    requires Inv(m, w) && l in w.lists && i < |w.lists[l]| && Outside(w, a)
    ensures At(Unlink(m, w.lists[l][i]), a) == At(m, a)
  {
    hide Unlink;
    var s := w.lists[l];
    Neighbours(m, w, l, i);
    assert s[i] in Blocks(w) && l in Blocks(w);
    if 0 < i { assert Path(l, s)[i] == s[i - 1]; assert s[i - 1] in Blocks(w); }
    if i + 1 < |s| { assert Path(l, s)[i + 2] == s[i + 1]; assert s[i + 1] in Blocks(w); }
    UnlinkLeaves(m, s[i], a);
  }

  lemma WritesOutside(m: Words, w: World, op: Op, a: nat)
    requires Callable(|m|, w, op) && (op.NewNode? || op.NewList? || op.SetPtr?)
    requires Outside(SeqStep(w, op).state, a)
    ensures At(MemStep(m, op).state, a) == At(m, a)
  {
    var b := if op.NewList? then op.l else op.n;
    assert b in Blocks(SeqStep(w, op).state);
  }

  lemma BlocksStay(w: World, op: Op)
    requires SeqStep(w, op).Done?
    ensures Blocks(w) <= Blocks(SeqStep(w, op).state)
  {
  }

  lemma StepOutside(m: Words, w: World, op: Op, a: nat)
    requires Inv(m, w) && Callable(|m|, w, op) && MemStep(m, op).Done? && SeqStep(w, op).Done?
    requires Outside(SeqStep(w, op).state, a)
    ensures Outside(w, a) && At(MemStep(m, op).state, a) == At(m, a)
  {
    hide Inv, Link, Unlink, MemInsertBefore, MemInsertAfter, MemRemove;
    BlocksStay(w, op);
    if op.NewNode? || op.NewList? || op.SetPtr? {
      WritesOutside(m, w, op, a);
    } else {
      var l, i := StepCases(m, w, op);
      if MemStep(m, op).state == m {
      } else if i < |w.lists[l]| && MemStep(m, op).state == Unlink(m, w.lists[l][i]) {
        UnlinkOutside(m, w, l, i, a);
      } else {
        LinkOutside(m, w, l, i, op.n, a);
      }
    }
  }

  /** Over every run no word changes that is not part of a list or a node. */
  lemma {:induction false} RunLeavesRest(m: Words, w: World, ops: seq<Op>, a: nat)
    requires Inv(m, w) && AllCallable(|m|, w, ops) && Outside(SeqRun(w, ops).state, a)
    ensures Outside(w, a) && At(MemRun(m, ops).state, a) == At(m, a)
    decreases |ops|
  {
    hide Inv, SeqStep, MemStep, Outside;
    if ops == [] {
    } else {
      StepAgrees(m, w, ops[0]);
      if SeqStep(w, ops[0]).Done? {
        RunLeavesRest(MemStep(m, ops[0]).state, SeqStep(w, ops[0]).state, ops[1..], a);
        StepOutside(m, w, ops[0], a);
      }
    }
  }
}
