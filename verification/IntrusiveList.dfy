/** The in-place operations of nNode and nList over one array of words (nlist.h, nnode.h). Each is one step of
    ListRuns, so the theorems about runs are about these methods. */
module IntrusiveList {
  import opened WordMemory
  import opened ListRuns
  import opened NodePayload

  lemma RemovedLast(w: World, l: nat)
    requires l in w.lists && w.lists[l] != []
    ensures var s := w.lists[l]; Removed(w, l, |s| - 1) == w.(lists := w.lists[l := s[..|s| - 1]])
  {
    var s := w.lists[l];
    assert s[..|s| - 1] + s[|s|..] == s[..|s| - 1];
  }

  lemma ListNodes(m: Words, w: World, l: nat)
    requires Inv(m, w) && l in w.lists
    ensures forall i :: 0 <= i < |w.lists[l]| ==> w.lists[l][i] in w.nodes
  {
  }

  lemma SuccNeighbour(m: Words, w: World, l: nat, i: nat)
    requires Inv(m, w) && l in w.lists && i < |w.lists[l]|
    ensures var s := w.lists[l]; var b := Path(l, s)[i + 2];
      b != 0 && b < |m| && (if i + 1 < |s| then b == s[i + 1] && m[b] != 0 else m[b] == 0)
  {
    hide Layout, OnePlace;
    var s := w.lists[l];
    PlacesApart(|m|, w, l, i + 2, l, i + 2);
    if i + 1 < |s| {
      Neighbours(m, w, l, i + 1);
      PlacesApart(|m|, w, l, i + 3, l, i + 3);
    } else {
      assert Wired(m, l, s);
    }
  }

  lemma PredNeighbour(m: Words, w: World, l: nat, i: nat)
    requires Inv(m, w) && l in w.lists && i < |w.lists[l]|
    ensures var s := w.lists[l]; var a := Path(l, s)[i];
      a != 0 && a + 1 < |m| && (if 0 < i then a == s[i - 1] && m[a + 1] != 0 else m[a + 1] == 0)
  {
    var s := w.lists[l];
    PlacesApart(|m|, w, l, i, l, i);
    assert l in Blocks(w);
    if 0 < i {
      assert s[i - 1] in Blocks(w);
      Neighbours(m, w, l, i - 1);
      PlacesApart(|m|, w, l, i - 1, l, i - 1);
    } else {
      assert Wired(m, l, s);
    }
  }

  /** What the getters of a node read. */
  lemma MemberNeighbours(m: Words, w: World, l: nat, i: nat)
    requires Inv(m, w) && l in w.lists && i < |w.lists[l]|
    ensures var s := w.lists[l]; var n := s[i];
      && n + 3 <= |m| && m[n] != 0 && m[n + 1] != 0
      && m[n] < |m| && (if i + 1 < |s| then m[n] == s[i + 1] && m[m[n]] != 0 else m[m[n]] == 0)
      && m[n + 1] + 1 < |m| && (if 0 < i then m[n + 1] == s[i - 1] && m[m[n + 1] + 1] != 0 else m[m[n + 1] + 1] == 0)
  {
    hide Layout, OnePlace;
    PlacesApart(|m|, w, l, i + 1, l, i + 1);
    Neighbours(m, w, l, i);
    SuccNeighbour(m, w, l, i);
    PredNeighbour(m, w, l, i);
  }

  /** What the getters of a list read. */
  lemma ListEnds(m: Words, w: World, l: nat)
    requires Inv(m, w) && l in w.lists
    ensures l + 3 <= |m| && m[l] < |m| && m[l + 2] + 1 < |m|
    ensures m[m[l]] == 0 <==> w.lists[l] == []
    ensures m[m[l + 2] + 1] == 0 <==> w.lists[l] == []
    ensures w.lists[l] != [] ==> m[l] == w.lists[l][0] && m[l + 2] == w.lists[l][|w.lists[l]| - 1]
    ensures w.lists[l] != [] ==> m[m[l + 2]] != 0
  {
    var s := w.lists[l];
    assert l in Blocks(w);
    assert Wired(m, l, s) && Joined(m, Path(l, s)[0], Path(l, s)[1]) && Joined(m, Path(l, s)[|s|], Path(l, s)[|s| + 1]);
    PlacesApart(|m|, w, l, |s|, l, 1);
    if s == [] {
    } else {
      MemberNeighbours(m, w, l, 0);
      MemberNeighbours(m, w, l, |s| - 1);
    }
  }

  class Memory {
    const words: array<nat>
    ghost var world: World

    ghost predicate Valid()
      reads this, words
    {
      Inv(words[..], world)
    }

    /** Blank memory: any words, no objects. */
    constructor (size: nat)
      ensures Valid() && fresh(words) && words.Length == size
      ensures world == World(map[], {})
    {
      words := new nat[size];
      world := World(map[], {});
      new;
      BlankMemory(words[..]);
    }

    /** nNode::nNode(ptr) at address n. */
    method NewNode(n: nat, ptr: nat)
      requires Valid() && RoomFor(words.Length, world, n)
      modifies this, words
      ensures Valid() && world == old(world).(nodes := old(world).nodes + {n})
      ensures MemStep(old(words[..]), Op.NewNode(n, ptr)) == Done(words[..], n)
      ensures PtrsKept(old(words[..]), words[..], old(world).nodes)
      ensures At(words[..], n + 2) == ptr
    {
      ghost var m := words[..];
      words[n] := 0;
      words[n + 1] := 0;
      words[n + 2] := ptr;
      NewNodeInv(m, world, n, ptr);
      assert words[..] == Put(Put(Put(m, n, 0), n + 1, 0), n + 2, ptr);
      world := world.(nodes := world.nodes + {n});
      StepKeepsAll(m, old(world), Op.NewNode(n, ptr));
      NewNodeHoldsPtr(m, old(world), n, ptr);
    }

    /** nList::nList() at address l: each sentinel points at the other, and the shared word is null. */
    method NewList(l: nat)
      requires Valid() && RoomFor(words.Length, world, l)
      modifies this, words
      ensures Valid() && world == old(world).(lists := old(world).lists[l := []])
      ensures MemStep(old(words[..]), Op.NewList(l)) == Done(words[..], l)
      ensures PtrsKept(old(words[..]), words[..], old(world).nodes)
    {
      ghost var m := words[..];
      words[l] := l + 1;
      words[l + 1] := 0;
      words[l + 2] := l;
      NewListInv(m, world, l);
      assert words[..] == Put(Put(Put(m, l, l + 1), l + 1, 0), l + 2, l);
      world := world.(lists := world.lists[l := []]);
      StepKeepsAll(m, old(world), Op.NewList(l));
    }

    /** nNode::InsertBefore. The two assertions of the code are the last two preconditions. */
    method InsertBefore(n: nat, succ: nat) returns (ghost l: nat, ghost i: nat)
      requires Valid() && n in world.nodes && IsPlace(world, succ)
      requires At(words[..], succ + 1) != 0 && At(words[..], n) == 0
      modifies this, words
      ensures Valid() && IsBefore(old(world), succ, l, i) && world == Inserted(old(world), l, i, n)
      ensures MemStep(old(words[..]), Op.InsertBefore(n, succ)) == Done(words[..], n)
      ensures PtrsKept(old(words[..]), words[..], old(world).nodes)
    {
      hide Inv;
      ghost var m := words[..];
      IsLinkedMeans(m, world, n);
      PredWordMeans(m, world, succ);
      l, i :| IsBefore(world, succ, l, i);
      InsertBeforeAgrees(m, world, n, succ, l, i);
      InsertFits(m, world, l, i, n);
      var pred := words[succ + 1];
      words[n + 1] := pred;
      words[n] := succ;
      words[pred] := n;
      words[succ + 1] := n;
      assert words[..] == Link(m, pred, n, succ);
      world := Inserted(world, l, i, n);
      StepKeepsAll(m, old(world), Op.InsertBefore(n, succ));
    }

    /** nNode::InsertAfter. */
    method InsertAfter(n: nat, pred: nat) returns (ghost l: nat, ghost i: nat)
      requires Valid() && n in world.nodes && IsPlace(world, pred)
      requires At(words[..], pred) != 0 && At(words[..], n) == 0
      modifies this, words
      ensures Valid() && IsAfter(old(world), pred, l, i) && world == Inserted(old(world), l, i, n)
      ensures MemStep(old(words[..]), Op.InsertAfter(n, pred)) == Done(words[..], n)
      ensures PtrsKept(old(words[..]), words[..], old(world).nodes)
    {
      hide Inv;
      ghost var m := words[..];
      IsLinkedMeans(m, world, n);
      SuccWordMeans(m, world, pred);
      l, i :| IsAfter(world, pred, l, i);
      InsertAfterAgrees(m, world, n, pred, l, i);
      InsertFits(m, world, l, i, n);
      var succ := words[pred];
      words[n + 1] := pred;
      words[n] := succ;
      words[pred] := n;
      words[succ + 1] := n;
      assert words[..] == Link(m, pred, n, succ);
      world := Inserted(world, l, i, n);
      StepKeepsAll(m, old(world), Op.InsertAfter(n, pred));
    }

    /** nNode::Remove. */
    method Remove(n: nat) returns (ghost l: nat, ghost i: nat)
      requires Valid() && n in world.nodes && At(words[..], n) != 0
      modifies this, words
      ensures Valid() && IsMember(old(world), n, l, i) && world == Removed(old(world), l, i)
      ensures MemStep(old(words[..]), Op.Remove(n)) == Done(words[..], n)
      ensures PtrsKept(old(words[..]), words[..], old(world).nodes)
    {
      hide Inv;
      ghost var m := words[..];
      IsLinkedMeans(m, world, n);
      MemberPlace(world, n);
      l, i :| IsBefore(world, n, l, i) && IsAfter(world, n, l, i + 1);
      assert IsMember(world, n, l, i);
      RemoveAgrees(m, world, n, l, i);
      RemoveFits(m, world, l, i);
      var succ := words[n];
      var pred := words[n + 1];
      words[succ + 1] := pred;
      words[pred] := succ;
      words[n] := 0;
      words[n + 1] := 0;
      assert words[..] == Unlink(m, n);
      world := Removed(world, l, i);
      StepKeepsAll(m, old(world), Op.Remove(n));
    }

    /** nList::AddHead: the address of `head` is passed as the node to insert after. */
    method AddHead(l: nat, n: nat)
      requires Valid() && l in world.lists && n in world.nodes && At(words[..], n) == 0
      modifies this, words
      ensures Valid() && world == old(world).(lists := old(world).lists[l := [n] + old(world).lists[l]])
      ensures MemStep(old(words[..]), Op.AddHead(l, n)) == Done(words[..], n)
      ensures PtrsKept(old(words[..]), words[..], old(world).nodes)
    {
      hide Inv, Link;
      assert IsAfter(world, l, l, 0);
      SuccWordMeans(words[..], world, l);
      ghost var w, m := world, words[..];
      ghost var k, i := InsertAfter(n, l);
      OnlyPlace(m, w, l, l, 0, k, i);
      assert w.lists[l][..0] + [n] + w.lists[l][0..] == [n] + w.lists[l];
      StepKeepsAll(m, w, Op.AddHead(l, n));
    }

    /** nList::AddTail: the address of `tail` is passed as the node to insert before. */
    method AddTail(l: nat, n: nat)
      requires Valid() && l in world.lists && n in world.nodes && At(words[..], n) == 0
      modifies this, words
      ensures Valid() && world == old(world).(lists := old(world).lists[l := old(world).lists[l] + [n]])
      ensures MemStep(old(words[..]), Op.AddTail(l, n)) == Done(words[..], n)
      ensures PtrsKept(old(words[..]), words[..], old(world).nodes)
    {
      hide Inv, Link;
      ghost var w, m := world, words[..];
      ghost var s := w.lists[l];
      assert IsBefore(world, l + 1, l, |s|);
      PredWordMeans(words[..], world, l + 1);
      ghost var k, i := InsertBefore(n, l + 1);
      OnlyPlace(m, w, l + 1, l, |s|, k, i);
      assert s[..|s|] + [n] + s[|s|..] == s + [n];
      StepKeepsAll(m, w, Op.AddTail(l, n));
    }

    /** nList::RemHead. */
    method RemHead(l: nat) returns (n: nat)
      requires Valid() && l in world.lists
      modifies this, words
      ensures Valid()
      ensures var s := old(world).lists[l];
        if s == [] then n == 0 && world == old(world)
        else n == s[0] && world == old(world).(lists := old(world).lists[l := s[1..]])
      ensures MemStep(old(words[..]), Op.RemHead(l)) == Done(words[..], n)
      ensures PtrsKept(old(words[..]), words[..], old(world).nodes)
    {
      hide Inv, Unlink;
      ghost var w, m := world, words[..];
      ListEnds(m, w, l);
      ListNodes(m, w, l);
      n := words[l];
      if words[n] != 0 {
        assert IsMember(w, n, l, 0);
        ghost var k, i := Remove(n);
        OnlyMember(m, w, n, l, 0, k, i);
        assert w.lists[l][..0] + w.lists[l][1..] == w.lists[l][1..];
      } else {
        n := 0;
      }
      StepKeepsAll(m, w, Op.RemHead(l));
    }

    /** nList::RemTail. */
    method RemTail(l: nat) returns (n: nat)
      requires Valid() && l in world.lists
      modifies this, words
      ensures Valid()
      ensures var s := old(world).lists[l];
        if s == [] then n == 0 && world == old(world)
        else n == s[|s| - 1] && world == old(world).(lists := old(world).lists[l := s[..|s| - 1]])
      ensures MemStep(old(words[..]), Op.RemTail(l)) == Done(words[..], n)
      ensures PtrsKept(old(words[..]), words[..], old(world).nodes)
    {
      hide Inv, Unlink, Removed;
      ghost var w, m := world, words[..];
      ghost var s := w.lists[l];
      ListEnds(m, w, l);
      ListNodes(m, w, l);
      n := words[l + 2];
      if words[n + 1] != 0 {
        assert IsMember(w, n, l, |s| - 1);
        ghost var k, i := Remove(n);
        OnlyMember(m, w, n, l, |s| - 1, k, i);
        RemovedLast(w, l);
      } else {
        n := 0;
      }
      StepKeepsAll(m, w, Op.RemTail(l));
    }

    /** nList::IsEmpty, which is also the condition ~nList asserts. */
    method IsEmpty(l: nat) returns (empty: bool)
      requires Valid() && l in world.lists
      ensures empty <==> world.lists[l] == []
    {
      ListEnds(words[..], world, l);
      empty := words[words[l]] == 0;
    }

    /** nList::GetHead. */
    method GetHead(l: nat) returns (n: nat)
      requires Valid() && l in world.lists
      ensures n == if world.lists[l] == [] then 0 else world.lists[l][0]
    {
      ListEnds(words[..], world, l);
      n := words[l];
      if words[n] == 0 {
        n := 0;
      }
    }

    /** nList::GetTail. */
    method GetTail(l: nat) returns (n: nat)
      requires Valid() && l in world.lists
      ensures n == if world.lists[l] == [] then 0 else world.lists[l][|world.lists[l]| - 1]
    {
      ListEnds(words[..], world, l);
      n := words[l + 2];
      if words[n + 1] == 0 {
        n := 0;
      }
    }

    /** nNode::GetSucc; the ghost arguments say where n is. */
    method GetSucc(n: nat, ghost l: nat, ghost i: nat) returns (r: nat)
      requires Valid() && IsMember(world, n, l, i)
      ensures r == if i + 1 < |world.lists[l]| then world.lists[l][i + 1] else 0
    {
      MemberNeighbours(words[..], world, l, i);
      r := words[n];
      if words[r] == 0 {
        r := 0;
      }
    }

    /** nNode::GetPred. */
    method GetPred(n: nat, ghost l: nat, ghost i: nat) returns (r: nat)
      requires Valid() && IsMember(world, n, l, i)
      ensures r == if 0 < i then world.lists[l][i - 1] else 0
    {
      MemberNeighbours(words[..], world, l, i);
      r := words[n + 1];
      if words[r + 1] == 0 {
        r := 0;
      }
    }

    /** nNode::SetPtr. */
    method SetPtr(n: nat, ptr: nat)
      requires Valid() && n in world.nodes
      modifies words
      ensures Valid() && forall a :: At(words[..], a) == if a == n + 2 then ptr else At(old(words[..]), a)
      ensures MemStep(old(words[..]), Op.SetPtr(n, ptr)) == Done(words[..], n)
    {
      SetPtrInv(words[..], world, n, ptr);
      assert n in Blocks(world);
      words[n + 2] := ptr;
    }

    /** nNode::GetPtr. */
    method GetPtr(n: nat) returns (ptr: nat)
      requires Valid() && n in world.nodes
      ensures ptr == At(words[..], n + 2)
    {
      assert n in Blocks(world);
      ptr := words[n + 2];
    }

    /** nNode::IsLinked, whose negation ~nNode asserts. */
    method IsLinked(n: nat) returns (linked: bool)
      requires Valid() && n in world.nodes
      ensures linked <==> Linked(world, n)
    {
      assert n in Blocks(world);
      IsLinkedMeans(words[..], world, n);
      linked := words[n] != 0;
    }
  }
}
