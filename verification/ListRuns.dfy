/** Walking the flat memory, and whole runs of list operations over it (nlist.h, nnode.h). */
module ListRuns {
  import opened WordMemory

  // ----- Places: the addresses the operations accept as neighbours

  /** Every address the code may pass as a node: a node, a head sentinel, or a tail sentinel. */
  ghost predicate IsPlace(w: World, x: nat) {
    x in w.nodes || x in w.lists || (0 < x && x - 1 in w.lists)
  }

  /** x is a head sentinel or a member, and what follows it is place i of list l. */
  ghost predicate IsAfter(w: World, x: nat, l: nat, i: nat) {
    l in w.lists && i <= |w.lists[l]| && Path(l, w.lists[l])[i] == x
  }

  /** x is a member or a tail sentinel, and what precedes it is place i of list l. */
  ghost predicate IsBefore(w: World, x: nat, l: nat, i: nat) {
    l in w.lists && i <= |w.lists[l]| && Path(l, w.lists[l])[i + 1] == x
  }

  ghost predicate IsMember(w: World, n: nat, l: nat, i: nat) {
    l in w.lists && i < |w.lists[l]| && w.lists[l][i] == n
  }

  lemma OnlyPlace(m: Words, w: World, x: nat, l: nat, i: nat, k: nat, j: nat)
    requires Inv(m, w)
    requires (IsAfter(w, x, l, i) && IsAfter(w, x, k, j)) || (IsBefore(w, x, l, i) && IsBefore(w, x, k, j))
    ensures l == k && i == j
  {
    PlacesApart(|m|, w, l, i, k, j);
    PlacesApart(|m|, w, l, i + 1, k, j + 1);
  }

  lemma OnlyMember(m: Words, w: World, n: nat, l: nat, i: nat, k: nat, j: nat)
    requires Inv(m, w) && IsMember(w, n, l, i) && IsMember(w, n, k, j)
    ensures l == k && i == j
  {
  }

  lemma MemberPlace(w: World, n: nat)
    ensures Linked(w, n) ==> exists l: nat, i: nat :: IsAfter(w, n, l, i + 1) && IsBefore(w, n, l, i)
  {
    if Linked(w, n) {
      var l :| l in w.lists && n in w.lists[l];
      var i: nat :| i < |w.lists[l]| && w.lists[l][i] == n;
      assert IsAfter(w, n, l, i + 1) && IsBefore(w, n, l, i);
    }
  }

  /** The assertion on `pred->succ` in InsertAfter passes exactly on head sentinels and members. */
  lemma SuccWordMeans(m: Words, w: World, x: nat)
    requires Inv(m, w) && IsPlace(w, x)
    ensures At(m, x) != 0 <==> exists l: nat, i: nat :: IsAfter(w, x, l, i)
  {
    if l: nat, i: nat :| IsAfter(w, x, l, i) {
      assert Joined(m, Path(l, w.lists[l])[i], Path(l, w.lists[l])[i + 1]);
      PlacesApart(|m|, w, l, i, l, i + 1);
      PlacesApart(|m|, w, l, i + 1, l, i + 1);
    } else {
      MemberPlace(w, x);
      if x in w.lists {
        assert IsAfter(w, x, x, 0);
      } else if x !in w.nodes {
        assert Wired(m, x - 1, w.lists[x - 1]);
      }
    }
  }

  /** The assertion on `succ->pred` in InsertBefore passes exactly on members and tail sentinels. */
  lemma PredWordMeans(m: Words, w: World, x: nat)
    requires Inv(m, w) && IsPlace(w, x)
    ensures At(m, x + 1) != 0 <==> exists l: nat, i: nat :: IsBefore(w, x, l, i)
  {
    if l: nat, i: nat :| IsBefore(w, x, l, i) {
      assert Joined(m, Path(l, w.lists[l])[i], Path(l, w.lists[l])[i + 1]);
      PlacesApart(|m|, w, l, i, l, i);
      assert l in Blocks(w);
      if 0 < i { PlacesApart(|m|, w, l, i, l, i); }
    } else {
      MemberPlace(w, x);
      if x in w.lists {
        assert Wired(m, x, w.lists[x]);
      } else if x !in w.nodes {
        assert IsBefore(w, x, x - 1, |w.lists[x - 1]|);
      }
    }
  }

  /** IsLinked tells the truth: a node's `succ` word is nonzero exactly while it is a member of some list. */
  lemma IsLinkedMeans(m: Words, w: World, n: nat)
    requires Inv(m, w) && n in w.nodes
    ensures At(m, n) != 0 <==> Linked(w, n)
  {
    SuccWordMeans(m, w, n);
    MemberPlace(w, n);
    if l: nat, i: nat :| IsAfter(w, n, l, i) {
      assert l in Blocks(w) && n in Blocks(w) && 0 < i;
      assert w.lists[l][i - 1] == n;
    } else if Linked(w, n) {
      assert false;
    }
  }

  // ----- The two walks

  /** The nodes met by GetHead and then GetSucc: stop at the node whose own `succ` is 0. */
  function Forward(m: Words, a: nat, fuel: nat): seq<nat>
    decreases fuel
  {
    if fuel == 0 || At(m, a) == 0 then [] else [a] + Forward(m, At(m, a), fuel - 1)
  }

  /** The nodes met by GetTail and then GetPred. */
  function Backward(m: Words, a: nat, fuel: nat): seq<nat>
    decreases fuel
  {
    if fuel == 0 || At(m, a + 1) == 0 then [] else [a] + Backward(m, At(m, a + 1), fuel - 1)
  }

  function Reversed(s: seq<nat>): (r: seq<nat>)
    ensures |r| == |s|
  {
    if s == [] then [] else Reversed(s[1..]) + [s[0]]
  }

  lemma {:induction false} ForwardFrom(m: Words, w: World, l: nat, i: nat, fuel: nat)
    requires Inv(m, w) && l in w.lists && i <= |w.lists[l]| <= fuel + i
    ensures Forward(m, Path(l, w.lists[l])[i + 1], fuel) == w.lists[l][i..]
    decreases |w.lists[l]| - i
  {
    var s, p := w.lists[l], Path(l, w.lists[l]);
    if i == |s| {
      assert Wired(m, l, s);
    } else {
      assert Joined(m, p[i + 1], p[i + 2]);
      PlacesApart(|m|, w, l, i + 2, l, i + 2);
      ForwardFrom(m, w, l, i + 1, fuel - 1);
      assert s[i..] == [s[i]] + s[i + 1..];
    }
  }

  lemma {:induction false} ReversedSnoc(s: seq<nat>, x: nat)
    ensures Reversed(s + [x]) == [x] + Reversed(s)
  {
    if s == [] {
    } else {
      ReversedSnoc(s[1..], x);
      assert (s + [x])[1..] == s[1..] + [x];
    }
  }

  lemma {:induction false} BackwardFrom(m: Words, w: World, l: nat, i: nat, fuel: nat)
    requires Inv(m, w) && l in w.lists && i <= |w.lists[l]| && i <= fuel
    ensures Backward(m, Path(l, w.lists[l])[i], fuel) == Reversed(w.lists[l][..i])
    decreases i
  {
    var s, p := w.lists[l], Path(l, w.lists[l]);
    if i == 0 {
      assert Wired(m, l, s);
    } else {
      assert Joined(m, p[i - 1], p[i]);
      PlacesApart(|m|, w, l, i - 1, l, i - 1);
      assert l in Blocks(w);
      BackwardFrom(m, w, l, i - 1, fuel - 1);
      ReversedSnoc(s[..i - 1], s[i - 1]);
      assert s[..i] == s[..i - 1] + [s[i - 1]];
    }
  }

  /** The two words from which the walks start. */
  lemma EndWords(m: Words, w: World, l: nat)
    requires Inv(m, w) && l in w.lists
    ensures At(m, l) == Path(l, w.lists[l])[1] && At(m, l + 2) == Path(l, w.lists[l])[|w.lists[l]|]
  {
    hide Layout, OnePlace, Linked;
    var s := w.lists[l];
    assert Wired(m, l, s);
    assert Joined(m, Path(l, s)[0], Path(l, s)[1]);
    assert Joined(m, Path(l, s)[|s|], Path(l, s)[|s| + 1]);
  }

  /** The `succ` walk spells the sequence, the `pred` walk its exact reverse, and both stop at the shared 0 word
      however long the caller would go on. */
  lemma WalksSpellTheList(m: Words, w: World, l: nat, fuel: nat)
    requires Inv(m, w) && l in w.lists && |w.lists[l]| <= fuel
    ensures Forward(m, At(m, l), fuel) == w.lists[l]
    ensures Backward(m, At(m, l + 2), fuel) == Reversed(w.lists[l])
  {
    hide Inv, Joined, Forward, Backward;
    var s := w.lists[l];
    EndWords(m, w, l);
    ForwardFrom(m, w, l, 0, fuel);
    BackwardFrom(m, w, l, |s|, fuel);
    assert s[..|s|] == s;
  }

  /** The words alone determine what every list contains. */
  lemma MemoryDeterminesLists(m: Words, w: World, w': World)
    requires Inv(m, w) && Inv(m, w') && w.lists.Keys == w'.lists.Keys && w.nodes == w'.nodes
    ensures w == w'
  {
    forall l | l in w.lists ensures w.lists[l] == w'.lists[l] {
      var fuel := |w.lists[l]| + |w'.lists[l]|;
      WalksSpellTheList(m, w, l, fuel);
      WalksSpellTheList(m, w', l, fuel);
    }
  }

  // ----- Runs

  datatype Op =
    | NewNode(n: nat, ptr: nat)
    | NewList(l: nat)
    | AddHead(l: nat, n: nat)
    | AddTail(l: nat, n: nat)
    | RemHead(l: nat)
    | RemTail(l: nat)
    | InsertBefore(n: nat, succ: nat)
    | InsertAfter(n: nat, pred: nat)
    | Remove(n: nat)
    | SetPtr(n: nat, ptr: nat)

  /** `Aborted` is a failed assertion. */
  datatype Outcome<S> = Done(state: S, result: nat) | Aborted

  function MemInsertBefore(m: Words, n: nat, succ: nat): (o: Outcome<Words>)
    ensures o.Done? ==> |o.state| == |m|
  {
    if At(m, succ + 1) == 0 || At(m, n) != 0 then Aborted else Done(Link(m, At(m, succ + 1), n, succ), n)
  }

  function MemInsertAfter(m: Words, n: nat, pred: nat): (o: Outcome<Words>)
    ensures o.Done? ==> |o.state| == |m|
  {
    if At(m, pred) == 0 || At(m, n) != 0 then Aborted else Done(Link(m, pred, n, At(m, pred)), n)
  }

  function MemRemove(m: Words, n: nat): (o: Outcome<Words>)
    ensures o.Done? ==> |o.state| == |m|
  {
    if At(m, n) == 0 then Aborted else Done(Unlink(m, n), n)
  }

  /** One operation on the words, reading and writing exactly what the code reads and writes. */
  function MemStep(m: Words, op: Op): (o: Outcome<Words>)
    ensures o.Done? ==> |o.state| == |m|
  {
    match op
    case NewNode(n, ptr) => Done(Put(Put(Put(m, n, 0), n + 1, 0), n + 2, ptr), n)
    case NewList(l) => Done(Put(Put(Put(m, l, l + 1), l + 1, 0), l + 2, l), l)
    case AddHead(l, n) => MemInsertAfter(m, n, l)
    case AddTail(l, n) => MemInsertBefore(m, n, l + 1)
    case RemHead(l) => var n := At(m, l); if At(m, n) != 0 then MemRemove(m, n) else Done(m, 0)
    case RemTail(l) => var n := At(m, l + 2); if At(m, n + 1) != 0 then MemRemove(m, n) else Done(m, 0)
    case InsertBefore(n, succ) => MemInsertBefore(m, n, succ)
    case InsertAfter(n, pred) => MemInsertAfter(m, n, pred)
    case Remove(n) => MemRemove(m, n)
    case SetPtr(n, ptr) => Done(Put(m, n + 2, ptr), n)
  }

  /** The same operation on sequences. */
  ghost function SeqStep(w: World, op: Op): Outcome<World> {
    match op
    case NewNode(n, _) => Done(w.(nodes := w.nodes + {n}), n)
    case NewList(l) => Done(w.(lists := w.lists[l := []]), l)
    case AddHead(l, n) =>
      if Linked(w, n) || l !in w.lists then Aborted else Done(Inserted(w, l, 0, n), n)
    case AddTail(l, n) =>
      if Linked(w, n) || l !in w.lists then Aborted else Done(Inserted(w, l, |w.lists[l]|, n), n)
    case RemHead(l) =>
      if l !in w.lists || w.lists[l] == [] then Done(w, 0) else Done(Removed(w, l, 0), w.lists[l][0])
    case RemTail(l) =>
      if l !in w.lists || w.lists[l] == [] then Done(w, 0)
      else Done(Removed(w, l, |w.lists[l]| - 1), w.lists[l][|w.lists[l]| - 1])
    case InsertBefore(n, succ) =>
      if Linked(w, n) || !(exists l: nat, i: nat :: IsBefore(w, succ, l, i)) then Aborted
      else var l: nat, i: nat :| IsBefore(w, succ, l, i); Done(Inserted(w, l, i, n), n)
    case InsertAfter(n, pred) =>
      if Linked(w, n) || !(exists l: nat, i: nat :: IsAfter(w, pred, l, i)) then Aborted
      else var l: nat, i: nat :| IsAfter(w, pred, l, i); Done(Inserted(w, l, i, n), n)
    case Remove(n) =>
      if !(exists l: nat, i: nat :: IsMember(w, n, l, i)) then Aborted
      else var l: nat, i: nat :| IsMember(w, n, l, i); Done(Removed(w, l, i), n)
    case SetPtr(n, _) => Done(w, n)
  }

  ghost predicate RoomFor(size: nat, w: World, a: nat) {
    0 < a && a + 3 <= size && forall b :: b in Blocks(w) ==> Apart(a, b)
  }

  /** What a caller owes: pointers to existing objects, and new objects placed clear of the old ones. */
  ghost predicate Callable(size: nat, w: World, op: Op) {
    match op
    case NewNode(n, _) => RoomFor(size, w, n)
    case NewList(l) => RoomFor(size, w, l)
    case AddHead(l, n) => l in w.lists && n in w.nodes
    case AddTail(l, n) => l in w.lists && n in w.nodes
    case RemHead(l) => l in w.lists
    case RemTail(l) => l in w.lists
    case InsertBefore(n, succ) => n in w.nodes && IsPlace(w, succ)
    case InsertAfter(n, pred) => n in w.nodes && IsPlace(w, pred)
    case Remove(n) => n in w.nodes
    case SetPtr(n, _) => n in w.nodes
  }

  ghost predicate Agree(o: Outcome<Words>, a: Outcome<World>) {
    match (o, a)
    case (Done(m, r), Done(w, q)) => r == q && Inv(m, w)
    case (Aborted, Aborted) => true
    case _ => false
  }

  lemma InsertAfterAgrees(m: Words, w: World, n: nat, pred: nat, l: nat, i: nat)
    requires Inv(m, w) && n in w.nodes && !Linked(w, n) && IsAfter(w, pred, l, i)
    ensures At(m, n) == 0 && At(m, pred) != 0
    ensures Inv(Link(m, pred, n, At(m, pred)), Inserted(w, l, i, n))
  {
    assert Joined(m, Path(l, w.lists[l])[i], Path(l, w.lists[l])[i + 1]);
    PlacesApart(|m|, w, l, i + 1, l, i + 1);
    LinkKeepsInv(m, w, l, i, n);
  }

  lemma InsertBeforeAgrees(m: Words, w: World, n: nat, succ: nat, l: nat, i: nat)
    requires Inv(m, w) && n in w.nodes && !Linked(w, n) && IsBefore(w, succ, l, i)
    ensures At(m, n) == 0 && At(m, succ + 1) != 0
    ensures Inv(Link(m, At(m, succ + 1), n, succ), Inserted(w, l, i, n))
  {
    assert Joined(m, Path(l, w.lists[l])[i], Path(l, w.lists[l])[i + 1]);
    PlacesApart(|m|, w, l, i, l, i + 1);
    assert l in Blocks(w);
    LinkKeepsInv(m, w, l, i, n);
  }

  lemma RemoveAgrees(m: Words, w: World, n: nat, l: nat, i: nat)
    requires Inv(m, w) && IsMember(w, n, l, i)
    ensures At(m, n) != 0 && Inv(Unlink(m, n), Removed(w, l, i))
  {
    Neighbours(m, w, l, i);
    PlacesApart(|m|, w, l, i + 2, l, i + 2);
    UnlinkKeepsInv(m, w, l, i);
  }

  lemma RemHeadAgrees(m: Words, w: World, l: nat)
    requires Inv(m, w) && l in w.lists
    ensures Agree(MemStep(m, RemHead(l)), SeqStep(w, RemHead(l)))
  {
    var s := w.lists[l];
    assert Wired(m, l, s) && Joined(m, Path(l, s)[0], Path(l, s)[1]);
    if s == [] {
    } else {
      RemoveAgrees(m, w, s[0], l, 0);
    }
  }

  /** How RemTail tells an empty list. */
  lemma TailWords(m: Words, w: World, l: nat)
    requires Inv(m, w) && l in w.lists
    ensures var s := w.lists[l]; At(m, l + 2) == if s == [] then l else s[|s| - 1]
    ensures At(m, At(m, l + 2) + 1) != 0 <==> w.lists[l] != []
  {
    var s := w.lists[l];
    EndWords(m, w, l);
    if s == [] {
      assert Wired(m, l, s);
    } else {
      Neighbours(m, w, l, |s| - 1);
      PlacesApart(|m|, w, l, |s| - 1, l, |s| - 1);
      assert l in Blocks(w);
    }
  }

  lemma RemTailAgrees(m: Words, w: World, l: nat)
    requires Inv(m, w) && l in w.lists
    ensures Agree(MemStep(m, RemTail(l)), SeqStep(w, RemTail(l)))
  {
    hide Inv, Unlink, Removed;
    var s := w.lists[l];
    TailWords(m, w, l);
    if s == [] {
    } else {
      RemoveAgrees(m, w, s[|s| - 1], l, |s| - 1);
    }
  }

  /** A fresh node or list, placed clear of every block, disturbs nothing there was. */
  lemma ClearOfBlocks(m: Words, m': Words, w: World, a: nat)
    requires Inv(m, w) && RoomFor(|m|, w, a)
    requires forall x: nat :: x < a || a + 3 <= x ==> At(m', x) == At(m, x)
    ensures forall k :: k in w.lists ==> Wired(m', k, w.lists[k])
    ensures forall n :: n in w.nodes ==> At(m', n) == At(m, n) && At(m', n + 1) == At(m, n + 1)
  {
    forall k | k in w.lists ensures Wired(m', k, w.lists[k]) {
      assert k in Blocks(w) && Wired(m, k, w.lists[k]);
      forall j | 0 <= j <= |w.lists[k]| ensures Joined(m', Path(k, w.lists[k])[j], Path(k, w.lists[k])[j + 1]) {
        assert Joined(m, Path(k, w.lists[k])[j], Path(k, w.lists[k])[j + 1]);
        PlacesApart(|m|, w, k, j, k, j);
        if j < |w.lists[k]| { PlacesApart(|m|, w, k, j + 1, k, j + 1); }
      }
    }
    forall n | n in w.nodes ensures At(m', n) == At(m, n) && At(m', n + 1) == At(m, n + 1) {
      assert n in Blocks(w);
    }
  }

  lemma NewNodeInv(m: Words, w: World, a: nat, ptr: nat)
    requires Inv(m, w) && RoomFor(|m|, w, a)
    ensures Inv(Put(Put(Put(m, a, 0), a + 1, 0), a + 2, ptr), w.(nodes := w.nodes + {a}))
  {
    var m', w' := Put(Put(Put(m, a, 0), a + 1, 0), a + 2, ptr), w.(nodes := w.nodes + {a});
    ClearOfBlocks(m, m', w, a);
    assert Blocks(w') == Blocks(w) + {a};
    assert a !in Blocks(w) by { assert !Apart(a, a); }
    forall n | n in w'.nodes && !Linked(w', n) ensures At(m', n) == 0 && At(m', n + 1) == 0 {
      assert n != a ==> !Linked(w, n);
    }
  }

  lemma NewListInv(m: Words, w: World, a: nat)
    requires Inv(m, w) && RoomFor(|m|, w, a)
    ensures Inv(Put(Put(Put(m, a, a + 1), a + 1, 0), a + 2, a), w.(lists := w.lists[a := []]))
  {
    var m', w' := Put(Put(Put(m, a, a + 1), a + 1, 0), a + 2, a), w.(lists := w.lists[a := []]);
    ClearOfBlocks(m, m', w, a);
    assert Blocks(w') == Blocks(w) + {a};
    assert a !in Blocks(w) by { assert !Apart(a, a); }
    assert Joined(m', Path(a, [])[0], Path(a, [])[1]);
    forall n | n in w'.nodes && !Linked(w', n) ensures At(m', n) == 0 && At(m', n + 1) == 0 {
      forall l | l in w.lists ensures n !in w.lists[l] { assert w'.lists[l] == w.lists[l]; }
    }
  }

  lemma InsertBeforeStep(m: Words, w: World, n: nat, succ: nat)
    requires Inv(m, w) && n in w.nodes && IsPlace(w, succ)
    ensures Agree(MemStep(m, InsertBefore(n, succ)), SeqStep(w, InsertBefore(n, succ)))
  {
    IsLinkedMeans(m, w, n);
    PredWordMeans(m, w, succ);
    if !Linked(w, n) && exists l: nat, i: nat :: IsBefore(w, succ, l, i) {
      var l: nat, i: nat :|
        IsBefore(w, succ, l, i) && SeqStep(w, InsertBefore(n, succ)) == Done(Inserted(w, l, i, n), n);
      InsertBeforeAgrees(m, w, n, succ, l, i);
    }
  }

  lemma InsertAfterStep(m: Words, w: World, n: nat, pred: nat)
    requires Inv(m, w) && n in w.nodes && IsPlace(w, pred)
    ensures Agree(MemStep(m, InsertAfter(n, pred)), SeqStep(w, InsertAfter(n, pred)))
  {
    IsLinkedMeans(m, w, n);
    SuccWordMeans(m, w, pred);
    if !Linked(w, n) && exists l: nat, i: nat :: IsAfter(w, pred, l, i) {
      var l: nat, i: nat :| IsAfter(w, pred, l, i) && SeqStep(w, InsertAfter(n, pred)) == Done(Inserted(w, l, i, n), n);
      InsertAfterAgrees(m, w, n, pred, l, i);
    }
  }

  lemma AddEndsStep(m: Words, w: World, l: nat, n: nat)
    requires Inv(m, w) && l in w.lists && n in w.nodes
    ensures Agree(MemStep(m, AddHead(l, n)), SeqStep(w, AddHead(l, n)))
    ensures Agree(MemStep(m, AddTail(l, n)), SeqStep(w, AddTail(l, n)))
  {
    hide Link, Inv;
    IsLinkedMeans(m, w, n);
    SuccWordMeans(m, w, l);
    assert IsAfter(w, l, l, 0);
    if !Linked(w, n) {
      InsertAfterAgrees(m, w, n, l, l, 0);
      InsertBeforeAgrees(m, w, n, l + 1, l, |w.lists[l]|);
    }
  }

  lemma RemoveStep(m: Words, w: World, n: nat)
    requires Inv(m, w) && n in w.nodes
    ensures Agree(MemStep(m, Remove(n)), SeqStep(w, Remove(n)))
  {
    IsLinkedMeans(m, w, n);
    if Linked(w, n) {
      MemberPlace(w, n);
      var k: nat, j: nat :| IsBefore(w, n, k, j) && IsAfter(w, n, k, j + 1);
      assert IsMember(w, n, k, j);
      var l: nat, i: nat :| IsMember(w, n, l, i) && SeqStep(w, Remove(n)) == Done(Removed(w, l, i), n);
      RemoveAgrees(m, w, n, l, i);
    } else {
      assert forall l: nat, i: nat :: !IsMember(w, n, l, i);
    }
  }

  /** Of the two words that make up a link, neither is the third word of a node. */
  lemma NoPtrOnPath(size: nat, w: World, l: nat, i: nat, n: nat)
    requires Layout(size, w) && OnePlace(w) && l in w.lists && i <= |w.lists[l]| && n in w.nodes
    ensures Path(l, w.lists[l])[i] != n + 2 && Path(l, w.lists[l])[i + 1] + 1 != n + 2
  {
    var s := w.lists[l];
    assert n in Blocks(w) && l in Blocks(w);
    if 0 < i { assert Path(l, s)[i] == s[i - 1]; assert s[i - 1] in Blocks(w); }
    if i < |s| { assert Path(l, s)[i + 1] == s[i]; assert s[i] in Blocks(w); }
  }

  /** The third word of a node takes part in no link. */
  lemma SetPtrInv(m: Words, w: World, n: nat, ptr: nat)
    requires Inv(m, w) && n in w.nodes
    ensures Inv(Put(m, n + 2, ptr), w)
  {
    var m' := Put(m, n + 2, ptr);
    assert n in Blocks(w);
    forall l | l in w.lists ensures Wired(m', l, w.lists[l]) {
      var s := w.lists[l];
      assert l in Blocks(w) && Wired(m, l, s);
      forall i | 0 <= i <= |s| ensures Joined(m', Path(l, s)[i], Path(l, s)[i + 1]) {
        assert Joined(m, Path(l, s)[i], Path(l, s)[i + 1]);
        NoPtrOnPath(|m|, w, l, i, n);
      }
    }
    forall x | x in w.nodes && !Linked(w, x) ensures At(m', x) == 0 && At(m', x + 1) == 0 {
      assert x in Blocks(w);
      assert At(m, x) == 0 && At(m, x + 1) == 0;
    }
  }

  /** One step: the words follow the sequences, and an assertion fails on the one side exactly when it does on the
      other. */
  lemma StepAgrees(m: Words, w: World, op: Op)
    requires Inv(m, w) && Callable(|m|, w, op)
    ensures Agree(MemStep(m, op), SeqStep(w, op))
  {
    hide Link, Unlink, Inv;
    match op
    case NewNode(n, ptr) => NewNodeInv(m, w, n, ptr);
    case NewList(l) => NewListInv(m, w, l);
    case RemHead(l) => RemHeadAgrees(m, w, l);
    case RemTail(l) => RemTailAgrees(m, w, l);
    case AddHead(l, n) => AddEndsStep(m, w, l, n);
    case AddTail(l, n) => AddEndsStep(m, w, l, n);
    case InsertBefore(n, succ) => InsertBeforeStep(m, w, n, succ);
    case InsertAfter(n, pred) => InsertAfterStep(m, w, n, pred);
    case Remove(n) => RemoveStep(m, w, n);
    case SetPtr(n, ptr) => SetPtrInv(m, w, n, ptr);
  }

  /** `results` are the addresses the calls returned (or worked on); a run stops at the first failed assertion. */
  datatype Trace<S> = Trace(state: S, results: seq<nat>, aborted: bool)

  function MemRun(m: Words, ops: seq<Op>): Trace<Words>
    decreases |ops|
  {
    if ops == [] then Trace(m, [], false)
    else match MemStep(m, ops[0])
      case Aborted => Trace(m, [], true)
      case Done(m', r) => var rest := MemRun(m', ops[1..]); rest.(results := [r] + rest.results)
  }

  ghost function SeqRun(w: World, ops: seq<Op>): Trace<World>
    decreases |ops|
  {
    if ops == [] then Trace(w, [], false)
    else match SeqStep(w, ops[0])
      case Aborted => Trace(w, [], true)
      case Done(w', r) => var rest := SeqRun(w', ops[1..]); rest.(results := [r] + rest.results)
  }

  /** Every call of the run passes existing objects, or constructs new ones clear of those existing by then. */
  ghost predicate AllCallable(size: nat, w: World, ops: seq<Op>)
    decreases |ops|
  {
    ops != [] ==>
      && Callable(size, w, ops[0])
      && (SeqStep(w, ops[0]).Done? ==> AllCallable(size, SeqStep(w, ops[0]).state, ops[1..]))
  }

  /** Over every run on any number of lists and nodes, the flat memory behaves as the sequences do: same results,
      the same assertion failing at the same step, and every list well formed at the end. */
  lemma {:induction false} RunAgrees(m: Words, w: World, ops: seq<Op>)
    requires Inv(m, w) && AllCallable(|m|, w, ops)
    ensures var t, u := MemRun(m, ops), SeqRun(w, ops);
      t.results == u.results && t.aborted == u.aborted && Inv(t.state, u.state)
    decreases |ops|
  {
    if ops == [] {
    } else {
      StepAgrees(m, w, ops[0]);
      var o, a := MemStep(m, ops[0]), SeqStep(w, ops[0]);
      assert Agree(o, a);
      if a.Done? {
        RunAgrees(o.state, a.state, ops[1..]);
      }
    }
  }

  /** Any run from blank memory is covered. */
  lemma BlankMemory(m: Words)
    ensures Inv(m, World(map[], {}))
  {
  }

  function Repeat(op: Op, count: nat): seq<Op> {
    if count == 0 then [] else [op] + Repeat(op, count - 1)
  }

  lemma {:induction false} SeqDrain(size: nat, w: World, l: nat)
    requires l in w.lists
    ensures var ops := Repeat(RemHead(l), |w.lists[l]|);
      AllCallable(size, w, ops) && SeqRun(w, ops) == Trace(w.(lists := w.lists[l := []]), w.lists[l], false)
    decreases |w.lists[l]|
  {
    var s, op := w.lists[l], RemHead(l);
    if s == [] {
      assert w.lists[l := []] == w.lists;
    } else {
      var w' := Removed(w, l, 0);
      assert w'.lists[l] == s[1..];
      assert w'.lists[l := []] == w.lists[l := []];
      SeqDrain(size, w', l);
      assert SeqStep(w, op) == Done(w', s[0]);
      assert Repeat(op, |s|)[1..] == Repeat(op, |s| - 1);
    }
  }

  /** What the destructor of a list asserts. */
  lemma EmptyWords(m: Words, w: World, l: nat)
    requires Inv(m, w) && l in w.lists && w.lists[l] == []
    ensures At(m, At(m, l)) == 0
  {
    hide Layout, OnePlace, Linked;
    assert Wired(m, l, []) && Joined(m, Path(l, [])[0], Path(l, [])[1]);
  }

  /** Draining a list with RemHead returns its nodes in order and reaches the state in which the destructor's
      assertion `0 == head->succ` passes; nothing else changes on the abstract side. */
  lemma DrainReturnsAll(m: Words, w: World, l: nat)
    requires Inv(m, w) && l in w.lists
    ensures var t := MemRun(m, Repeat(RemHead(l), |w.lists[l]|));
      && !t.aborted && t.results == w.lists[l]
      && Inv(t.state, w.(lists := w.lists[l := []]))
      && At(t.state, At(t.state, l)) == 0
  {
    hide Inv, MemRun, SeqRun, AllCallable, Repeat;
    SeqDrain(|m|, w, l);
    RunAgrees(m, w, Repeat(RemHead(l), |w.lists[l]|));
    EmptyWords(MemRun(m, Repeat(RemHead(l), |w.lists[l]|)).state, w.(lists := w.lists[l := []]), l);
  }

  // ----- Frame: what one operation leaves alone

  ghost predicate SameNode(m: Words, m': Words, x: nat) {
    At(m', x) == At(m, x) && At(m', x + 1) == At(m, x + 1) && At(m', x + 2) == At(m, x + 2)
  }

  /** All nine-or-more words of list k and its members are the same in both memories. */
  ghost predicate SameList(m: Words, m': Words, w: World, k: nat)
    requires k in w.lists
  {
    && At(m', k) == At(m, k) && At(m', k + 1) == At(m, k + 1) && At(m', k + 2) == At(m, k + 2)
    && forall j :: 0 <= j < |w.lists[k]| ==> SameNode(m, m', w.lists[k][j])
  }

  lemma LinkElsewhere(m: Words, a: nat, n: nat, b: nat, owner: nat, x: nat)
    requires Apart(x, a) && Apart(x, n) && Apart(x, owner) && owner <= b <= owner + 1
    ensures SameNode(m, Link(m, a, n, b), x)
  {
  }

  lemma BlockUntouched(m: Words, w: World, l: nat, i: nat, n: nat, x: nat)
    requires Inv(m, w) && l in w.lists && i <= |w.lists[l]| && n in w.nodes && x in Blocks(w)
    requires x != n && x != l && x !in w.lists[l]
    ensures SameNode(m, Link(m, Path(l, w.lists[l])[i], n, Path(l, w.lists[l])[i + 1]), x)
  {
    var s, p := w.lists[l], Path(l, w.lists[l]);
    assert n in Blocks(w) && l in Blocks(w);
    assert Apart(x, n) && Apart(x, l);
    if 0 < i { assert p[i] == s[i - 1] && s[i - 1] in Blocks(w); }
    if i < |s| { assert p[i + 1] == s[i] && s[i] in Blocks(w); }
    LinkElsewhere(m, p[i], n, p[i + 1], if i < |s| then s[i] else l, x);
  }

  lemma BlockUnaffected(m: Words, w: World, l: nat, i: nat, x: nat)
    requires Inv(m, w) && l in w.lists && i < |w.lists[l]| && x in Blocks(w)
    requires x != l && x !in w.lists[l]
    ensures SameNode(m, Unlink(m, w.lists[l][i]), x)
  {
    var s := w.lists[l];
    Neighbours(m, w, l, i);
    assert l in Blocks(w) && s[i] in Blocks(w);
    if 0 < i { assert Path(l, s)[i] == s[i - 1] && s[i - 1] in Blocks(w); }
    if i + 1 < |s| { assert Path(l, s)[i + 2] == s[i + 1] && s[i + 1] in Blocks(w); }
  }

  /** An insertion into list l changes no word of any other list or of its members. */
  lemma InsertLeavesOthers(m: Words, w: World, l: nat, i: nat, n: nat, k: nat)
    requires Inv(m, w) && l in w.lists && i <= |w.lists[l]| && n in w.nodes && !Linked(w, n)
    requires k in w.lists && k != l
    ensures SameList(m, Link(m, Path(l, w.lists[l])[i], n, Path(l, w.lists[l])[i + 1]), w, k)
  {
    assert k in Blocks(w);
    BlockUntouched(m, w, l, i, n, k);
    var p := Path(l, w.lists[l]);
    forall j | 0 <= j < |w.lists[k]| ensures SameNode(m, Link(m, p[i], n, p[i + 1]), w.lists[k][j]) {
      assert w.lists[k][j] in w.lists[k];
      assert w.lists[k][j] in Blocks(w);
      BlockUntouched(m, w, l, i, n, w.lists[k][j]);
    }
  }

  /** A removal from list l changes no word of any other list or of its members. */
  lemma RemoveLeavesOthers(m: Words, w: World, l: nat, i: nat, k: nat)
    requires Inv(m, w) && l in w.lists && i < |w.lists[l]| && k in w.lists && k != l
    ensures SameList(m, Unlink(m, w.lists[l][i]), w, k)
  {
    assert k in Blocks(w);
    BlockUnaffected(m, w, l, i, k);
    forall j | 0 <= j < |w.lists[k]| ensures SameNode(m, Unlink(m, w.lists[l][i]), w.lists[k][j]) {
      assert w.lists[k][j] in Blocks(w);
      BlockUnaffected(m, w, l, i, w.lists[k][j]);
    }
  }
}
