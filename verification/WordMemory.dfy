/** Flat word memory holding intrusive lists and their nodes (nlist.h, nnode.h).

    A node occupies three words `succ, pred, ptr`; a list occupies three words `head, tail, tailpred`.
    The list casts the addresses of `head` and of `tail` to nodes, so its two sentinels overlap: the head
    sentinel is the "node" at `l`, the tail sentinel the "node" at `l + 1`, and the word `l + 1` is at once
    the tail sentinel's `succ` and the head sentinel's `pred`.  It stays 0 for ever, which is how both walks stop. */
module WordMemory {

  type Words = seq<nat>

  /** The abstract state: which lists exist and what they contain, and which nodes have been constructed. */
  datatype World = World(lists: map<nat, seq<nat>>, nodes: set<nat>)

  function At(m: Words, a: nat): nat {
    if a < |m| then m[a] else 0
  }

  function Put(m: Words, a: nat, v: nat): (r: Words)
    ensures |r| == |m|
  {
    if a < |m| then m[a := v] else m
  }

  // ----- Well-formedness

  function Blocks(w: World): set<nat> {
    w.lists.Keys + w.nodes
  }

  ghost predicate Apart(a: nat, b: nat) {
    a + 3 <= b || b + 3 <= a
  }

  ghost predicate Layout(size: nat, w: World) {
    && w.lists.Keys !! w.nodes
    && (forall a :: a in Blocks(w) ==> 0 < a && a + 3 <= size)
    && (forall a, b :: a in Blocks(w) && b in Blocks(w) && a != b ==> Apart(a, b))
  }

  ghost predicate Linked(w: World, n: nat) {
    exists l :: l in w.lists && n in w.lists[l]
  }

  /** Each node sits in at most one list, at one place. */
  ghost predicate OnePlace(w: World) {
    && (forall l, i :: l in w.lists && 0 <= i < |w.lists[l]| ==> w.lists[l][i] in w.nodes)
    && (forall l, i, k, j ::
          && l in w.lists && 0 <= i < |w.lists[l]| && k in w.lists && 0 <= j < |w.lists[k]|
          && w.lists[l][i] == w.lists[k][j]
          ==> l == k && i == j)
  }

  /** The addresses met when walking a list from its head sentinel to its tail sentinel. */
  function Path(l: nat, s: seq<nat>): (p: seq<nat>)
    ensures |p| == |s| + 2
  {
    [l] + s + [l + 1]
  }

  ghost predicate Joined(m: Words, a: nat, b: nat) {
    At(m, a) == b && At(m, b + 1) == a
  }

  /** Along the whole path `succ` and `pred` are mutually inverse, and the shared word is 0. */
  ghost predicate Wired(m: Words, l: nat, s: seq<nat>) {
    && At(m, l + 1) == 0
    && forall i :: 0 <= i <= |s| ==> Joined(m, Path(l, s)[i], Path(l, s)[i + 1])
  }

  ghost predicate Inv(m: Words, w: World) {
    && Layout(|m|, w)
    && OnePlace(w)
    && (forall l :: l in w.lists ==> Wired(m, l, w.lists[l]))
    && (forall n :: n in w.nodes && !Linked(w, n) ==> At(m, n) == 0 && At(m, n + 1) == 0)
  }

  // ----- The pointer surgery, as functions of the memory

  /** What InsertBefore and InsertAfter write, once both neighbours are known. */
  function Link(m: Words, pred: nat, n: nat, succ: nat): (r: Words)
    ensures |r| == |m|
  {
    Put(Put(Put(Put(m, n + 1, pred), n, succ), pred, n), succ + 1, n)
  }

  /** What Remove writes. */
  function Unlink(m: Words, n: nat): (r: Words)
    ensures |r| == |m|
  {
    var succ, pred := At(m, n), At(m, n + 1);
    Put(Put(Put(Put(m, succ + 1, pred), pred, succ), n, 0), n + 1, 0)
  }

  function Inserted(w: World, l: nat, i: nat, n: nat): World
    requires l in w.lists && i <= |w.lists[l]|
  {
    w.(lists := w.lists[l := w.lists[l][..i] + [n] + w.lists[l][i..]])
  }

  function Removed(w: World, l: nat, i: nat): World
    requires l in w.lists && i < |w.lists[l]|
  {
    w.(lists := w.lists[l := w.lists[l][..i] + w.lists[l][i + 1..]])
  }

  // ----- Separation: no two links share a word, although the sentinels overlap

  /** The `succ` word of place i and the `pred` word of place i are owned by that place alone. */
  lemma PlacesApart(size: nat, w: World, l: nat, i: nat, k: nat, j: nat)
    requires Layout(size, w) && OnePlace(w)
    requires l in w.lists && i <= |w.lists[l]| + 1
    requires k in w.lists && j <= |w.lists[k]| + 1
    ensures i <= |w.lists[l]| ==> Path(l, w.lists[l])[i] in Blocks(w)
    ensures i <= |w.lists[l]| ==> Path(l, w.lists[l])[i] + 3 <= size
    ensures 0 < i ==> Path(l, w.lists[l])[i] + 2 <= size
    ensures i <= |w.lists[l]| && j <= |w.lists[k]| && Path(l, w.lists[l])[i] == Path(k, w.lists[k])[j]
      ==> l == k && i == j
    ensures 0 < i && 0 < j && Path(l, w.lists[l])[i] == Path(k, w.lists[k])[j] ==> l == k && i == j
    ensures i <= |w.lists[l]| && 0 < j ==> Path(l, w.lists[l])[i] != Path(k, w.lists[k])[j] + 1
    ensures i <= |w.lists[l]| ==> Path(l, w.lists[l])[i] != k + 1
    ensures 0 < i ==> Path(l, w.lists[l])[i] != k
    ensures 0 < j ==> Path(l, w.lists[l])[i] != 0
  {
    var s, t := w.lists[l], w.lists[k];
    assert l in Blocks(w) && k in Blocks(w);
    if 0 < i <= |s| { assert Path(l, s)[i] == s[i - 1]; assert s[i - 1] in Blocks(w); }
    if 0 < j <= |t| { assert Path(k, t)[j] == t[j - 1]; assert t[j - 1] in Blocks(w); }
    if i == 0 { assert Path(l, s)[i] == l; }
    if j == 0 { assert Path(k, t)[j] == k; }
    if i == |s| + 1 { assert Path(l, s)[i] == l + 1; }
    if j == |t| + 1 { assert Path(k, t)[j] == k + 1; }
  }

  /** A node outside every list shares no word with any place of any list. */
  lemma FreeApart(size: nat, w: World, n: nat, k: nat, j: nat)
    requires Layout(size, w) && OnePlace(w)
    requires n in w.nodes && !Linked(w, n)
    requires k in w.lists && j <= |w.lists[k]| + 1
    ensures j <= |w.lists[k]| ==> Apart(n, Path(k, w.lists[k])[j])
    ensures n != k && Apart(n, k)
    ensures n + 3 <= size
  {
    var t := w.lists[k];
    assert n in Blocks(w) && k in Blocks(w);
    if 0 < j <= |t| { assert Path(k, t)[j] == t[j - 1]; assert t[j - 1] in Blocks(w); assert n !in t; }
  }

  // ----- Insertion and removal keep every list well formed

  lemma InsertedPath(l: nat, s: seq<nat>, i: nat, n: nat, j: nat)
    requires i <= |s| && j <= |s| + 2
    ensures Path(l, s[..i] + [n] + s[i..])[j]
      == if j <= i then Path(l, s)[j] else if j == i + 1 then n else Path(l, s)[j - 1]
  {
  }

  lemma RemovedPath(l: nat, s: seq<nat>, i: nat, j: nat)
    requires i < |s| && j <= |s|
    ensures Path(l, s[..i] + s[i + 1..])[j] == if j <= i then Path(l, s)[j] else Path(l, s)[j + 1]
  {
  }

  lemma InsertedLinked(w: World, l: nat, i: nat, n: nat)
    requires l in w.lists && i <= |w.lists[l]|
    ensures forall x :: Linked(Inserted(w, l, i, n), x) <==> Linked(w, x) || x == n
  {
    var w', s := Inserted(w, l, i, n), w.lists[l];
    assert s == s[..i] + s[i..];
    assert forall x :: x in w'.lists[l] <==> x in s || x == n;
    assert forall k :: k in w.lists && k != l ==> w'.lists[k] == w.lists[k];
  }

  lemma RemovedLinked(w: World, l: nat, i: nat)
    requires OnePlace(w) && l in w.lists && i < |w.lists[l]|
    ensures forall x :: Linked(Removed(w, l, i), x) <==> Linked(w, x) && x != w.lists[l][i]
  {
    var w', s := Removed(w, l, i), w.lists[l];
    assert s == s[..i] + [s[i]] + s[i + 1..];
    assert forall j :: 0 <= j < |s| && s[j] == s[i] ==> j == i;
    assert forall x :: x in w'.lists[l] <==> x in s && x != s[i];
    assert forall k :: k in w.lists && k != l ==> w'.lists[k] == w.lists[k] && s[i] !in w.lists[k];
  }

  /** What stands at place j of list k after an insertion stood one place earlier or at the same place before. */
  lemma PlaceBefore(w: World, l: nat, i: nat, n: nat, k: nat, j: nat)
    requires OnePlace(w) && l in w.lists && i <= |w.lists[l]| && n in w.nodes && !Linked(w, n)
    requires k in w.lists && j < |Inserted(w, l, i, n).lists[k]|
    ensures var x := Inserted(w, l, i, n).lists[k][j];
      if k == l && j == i then x == n
      else var p := if k == l && j > i then j - 1 else j; p < |w.lists[k]| && x == w.lists[k][p] != n
  {
  }

  lemma InsertedUnique(w: World, l: nat, i: nat, n: nat)
    requires OnePlace(w) && l in w.lists && i <= |w.lists[l]| && n in w.nodes && !Linked(w, n)
    ensures OnePlace(Inserted(w, l, i, n))
  {
    var w' := Inserted(w, l, i, n);
    forall k, j | k in w'.lists && 0 <= j < |w'.lists[k]| ensures w'.lists[k][j] in w'.nodes {
      PlaceBefore(w, l, i, n, k, j);
    }
    forall k, j, k', j' |
      && k in w'.lists && 0 <= j < |w'.lists[k]| && k' in w'.lists && 0 <= j' < |w'.lists[k']|
      && w'.lists[k][j] == w'.lists[k'][j']
      ensures k == k' && j == j'
    {
      PlaceBefore(w, l, i, n, k, j);
      PlaceBefore(w, l, i, n, k', j');
    }
  }

  /** The abstract side of an insertion. */
  lemma InsertedOnePlace(size: nat, w: World, l: nat, i: nat, n: nat)
    requires Layout(size, w) && OnePlace(w)
    requires l in w.lists && i <= |w.lists[l]| && n in w.nodes && !Linked(w, n)
    ensures Layout(size, Inserted(w, l, i, n)) && OnePlace(Inserted(w, l, i, n))
    ensures forall x :: Linked(Inserted(w, l, i, n), x) <==> Linked(w, x) || x == n
  {
    assert Blocks(Inserted(w, l, i, n)) == Blocks(w);
    InsertedUnique(w, l, i, n);
    InsertedLinked(w, l, i, n);
  }

  /** What stands at place j of list k after a removal stood at the same place or one later before. */
  lemma PlaceAfter(w: World, l: nat, i: nat, k: nat, j: nat)
    requires l in w.lists && i < |w.lists[l]|
    requires k in w.lists && j < |Removed(w, l, i).lists[k]|
    ensures var p := if k == l && j >= i then j + 1 else j;
      p < |w.lists[k]| && Removed(w, l, i).lists[k][j] == w.lists[k][p]
  {
  }

  lemma RemovedShape(w: World, l: nat, i: nat)
    requires l in w.lists && i < |w.lists[l]|
    ensures Removed(w, l, i).lists.Keys == w.lists.Keys && Removed(w, l, i).nodes == w.nodes
  {
  }

  lemma RemovedUnique(w: World, l: nat, i: nat)
    requires OnePlace(w) && l in w.lists && i < |w.lists[l]|
    ensures OnePlace(Removed(w, l, i))
  {
    hide Removed;
    var w' := Removed(w, l, i);
    RemovedShape(w, l, i);
    forall k, j | k in w'.lists && 0 <= j < |w'.lists[k]| ensures w'.lists[k][j] in w'.nodes {
      PlaceAfter(w, l, i, k, j);
    }
    forall k, j, k', j' |
      && k in w'.lists && 0 <= j < |w'.lists[k]| && k' in w'.lists && 0 <= j' < |w'.lists[k']|
      && w'.lists[k][j] == w'.lists[k'][j']
      ensures k == k' && j == j'
    {
      PlaceAfter(w, l, i, k, j);
      PlaceAfter(w, l, i, k', j');
    }
  }

  lemma RemovedOnePlace(size: nat, w: World, l: nat, i: nat)
    requires Layout(size, w) && OnePlace(w)
    requires l in w.lists && i < |w.lists[l]|
    ensures Layout(size, Removed(w, l, i)) && OnePlace(Removed(w, l, i))
    ensures forall x :: Linked(Removed(w, l, i), x) <==> Linked(w, x) && x != w.lists[l][i]
  {
    assert Blocks(Removed(w, l, i)) == Blocks(w);
    RemovedUnique(w, l, i);
    RemovedLinked(w, l, i);
    hide Removed, Linked, OnePlace;
  }

  lemma LinkKeepsFree(m: Words, w: World, l: nat, i: nat, n: nat, x: nat)
    requires Inv(m, w)
    requires l in w.lists && i <= |w.lists[l]| && n in w.nodes && !Linked(w, n)
    requires x in w.nodes && !Linked(w, x) && x != n
    ensures At(Link(m, Path(l, w.lists[l])[i], n, Path(l, w.lists[l])[i + 1]), x) == 0
    ensures At(Link(m, Path(l, w.lists[l])[i], n, Path(l, w.lists[l])[i + 1]), x + 1) == 0
  {
    FreeApart(|m|, w, x, l, i);
    FreeApart(|m|, w, x, l, i + 1);
    assert x in Blocks(w) && n in Blocks(w);
    assert At(m, x) == 0 && At(m, x + 1) == 0;
  }

  /** Opening the link at place i and routing it through n spells the longer sequence. */
  lemma SplicedWired(m: Words, l: nat, s: seq<nat>, i: nat, n: nat)
    requires i <= |s| && At(m, l + 1) == 0
    requires forall j :: 0 <= j <= |s| && j != i ==> Joined(m, Path(l, s)[j], Path(l, s)[j + 1])
    requires Joined(m, Path(l, s)[i], n) && Joined(m, n, Path(l, s)[i + 1])
    ensures Wired(m, l, s[..i] + [n] + s[i..])
  {
    var s' := s[..i] + [n] + s[i..];
    forall j | 0 <= j <= |s'| ensures Joined(m, Path(l, s')[j], Path(l, s')[j + 1]) {
      InsertedPath(l, s, i, n, j);
      InsertedPath(l, s, i, n, j + 1);
      if j > i + 1 { assert Joined(m, Path(l, s)[j - 1], Path(l, s)[j]); }
    }
  }

  lemma LinkKeepsSharedWord(m: Words, w: World, l: nat, i: nat, n: nat, k: nat)
    requires Inv(m, w)
    requires l in w.lists && i <= |w.lists[l]| && n in w.nodes && !Linked(w, n) && k in w.lists
    ensures At(Link(m, Path(l, w.lists[l])[i], n, Path(l, w.lists[l])[i + 1]), k + 1) == 0
  {
    PlacesApart(|m|, w, l, i, k, 0);
    PlacesApart(|m|, w, l, i + 1, k, 0);
    FreeApart(|m|, w, n, k, 0);
    assert Wired(m, k, w.lists[k]);
  }

  lemma LinkJoins(m: Words, w: World, l: nat, i: nat, n: nat)
    requires Inv(m, w)
    requires l in w.lists && i <= |w.lists[l]| && n in w.nodes && !Linked(w, n)
    ensures var p := Path(l, w.lists[l]); var m' := Link(m, p[i], n, p[i + 1]);
      Joined(m', p[i], n) && Joined(m', n, p[i + 1])
  {
    PlacesApart(|m|, w, l, i, l, i + 1);
    PlacesApart(|m|, w, l, i + 1, l, i);
    FreeApart(|m|, w, n, l, i);
    FreeApart(|m|, w, n, l, i + 1);
  }

  lemma LinkLeaves(m: Words, a: nat, n: nat, b: nat, x: nat)
    requires x != a && x != n && x != n + 1 && x != b + 1
    ensures At(Link(m, a, n, b), x) == At(m, x)
  {
  }

  /** A link other than the one being opened keeps both its words. */
  lemma JoinedKept(m: Words, w: World, l: nat, i: nat, n: nat, k: nat, j: nat)
    requires Inv(m, w)
    requires l in w.lists && i <= |w.lists[l]| && n in w.nodes && !Linked(w, n)
    requires k in w.lists && j <= |w.lists[k]| && !(k == l && j == i)
    ensures var p, q := Path(l, w.lists[l]), Path(k, w.lists[k]);
      Joined(Link(m, p[i], n, p[i + 1]), q[j], q[j + 1])
  {
    hide Layout, OnePlace, Linked, Path, Link, At, Put;
    PlacesApart(|m|, w, l, i, k, j);
    PlacesApart(|m|, w, l, i, k, j + 1);
    PlacesApart(|m|, w, k, j, l, i + 1);
    PlacesApart(|m|, w, l, i + 1, k, j + 1);
    FreeApart(|m|, w, n, k, j);
    FreeApart(|m|, w, n, k, j + 1);
    var p, q := Path(l, w.lists[l]), Path(k, w.lists[k]);
    LinkLeaves(m, p[i], n, p[i + 1], q[j]);
    LinkLeaves(m, p[i], n, p[i + 1], q[j + 1] + 1);
    assert Joined(m, q[j], q[j + 1]);
  }

  lemma LinkKeepsWired(m: Words, w: World, l: nat, i: nat, n: nat, k: nat)
    requires Inv(m, w)
    requires l in w.lists && i <= |w.lists[l]| && n in w.nodes && !Linked(w, n) && k in w.lists
    ensures Wired(Link(m, Path(l, w.lists[l])[i], n, Path(l, w.lists[l])[i + 1]), k, Inserted(w, l, i, n).lists[k])
  {
    var t, p := w.lists[k], Path(l, w.lists[l]);
    var m' := Link(m, p[i], n, p[i + 1]);
    assert At(m', k + 1) == 0 by {
      LinkKeepsSharedWord(m, w, l, i, n, k);
    }
    forall j | 0 <= j <= |t| && !(k == l && j == i) ensures Joined(m', Path(k, t)[j], Path(k, t)[j + 1]) {
      JoinedKept(m, w, l, i, n, k, j);
    }
    if k == l {
      LinkJoins(m, w, l, i, n);
      SplicedWired(m', l, t, i, n);
    }
  }

  /** Linking a free node between two neighbours inserts it into the abstract sequence and disturbs nothing else. */
  lemma LinkKeepsInv(m: Words, w: World, l: nat, i: nat, n: nat)
    requires Inv(m, w)
    requires l in w.lists && i <= |w.lists[l]| && n in w.nodes && !Linked(w, n)
    ensures Inv(Link(m, Path(l, w.lists[l])[i], n, Path(l, w.lists[l])[i + 1]), Inserted(w, l, i, n))
  {
    var p, w' := Path(l, w.lists[l]), Inserted(w, l, i, n);
    var m' := Link(m, p[i], n, p[i + 1]);
    InsertedOnePlace(|m|, w, l, i, n);
    forall k | k in w'.lists ensures Wired(m', k, w'.lists[k]) {
      LinkKeepsWired(m, w, l, i, n, k);
    }
    forall x | x in w'.nodes && !Linked(w', x) ensures At(m', x) == 0 && At(m', x + 1) == 0 {
      LinkKeepsFree(m, w, l, i, n, x);
    }
  }

  /** The words Remove reads are the neighbours on the path. */
  lemma Neighbours(m: Words, w: World, l: nat, i: nat)
    requires Inv(m, w) && l in w.lists && i < |w.lists[l]|
    ensures Path(l, w.lists[l])[i + 1] == w.lists[l][i]
    ensures At(m, w.lists[l][i]) == Path(l, w.lists[l])[i + 2]
    ensures At(m, w.lists[l][i] + 1) == Path(l, w.lists[l])[i]
  {
    assert Joined(m, Path(l, w.lists[l])[i], Path(l, w.lists[l])[i + 1]);
    assert Joined(m, Path(l, w.lists[l])[i + 1], Path(l, w.lists[l])[i + 2]);
  }

  lemma UnlinkKeepsFree(m: Words, w: World, l: nat, i: nat, x: nat)
    requires Inv(m, w) && l in w.lists && i < |w.lists[l]|
    requires x in w.nodes && (Linked(w, x) ==> x == w.lists[l][i])
    ensures At(Unlink(m, w.lists[l][i]), x) == 0 && At(Unlink(m, w.lists[l][i]), x + 1) == 0
  {
    Neighbours(m, w, l, i);
    PlacesApart(|m|, w, l, i + 1, l, i + 2);
    assert x in Blocks(w);
    if x != w.lists[l][i] {
      FreeApart(|m|, w, x, l, i);
      FreeApart(|m|, w, x, l, i + 1);
      FreeApart(|m|, w, x, l, i + 2);
      assert At(m, x) == 0 && At(m, x + 1) == 0;
    }
  }

  lemma ClosedWired(m: Words, l: nat, s: seq<nat>, i: nat)
    requires i < |s| && At(m, l + 1) == 0
    requires forall j :: 0 <= j <= |s| && j != i && j != i + 1 ==> Joined(m, Path(l, s)[j], Path(l, s)[j + 1])
    requires Joined(m, Path(l, s)[i], Path(l, s)[i + 2])
    ensures Wired(m, l, s[..i] + s[i + 1..])
  {
    var s' := s[..i] + s[i + 1..];
    forall j | 0 <= j <= |s'| ensures Joined(m, Path(l, s')[j], Path(l, s')[j + 1]) {
      RemovedPath(l, s, i, j);
      RemovedPath(l, s, i, j + 1);
      if j > i { assert Joined(m, Path(l, s)[j + 1], Path(l, s)[j + 2]); }
    }
  }

  lemma UnlinkKeepsSharedWord(m: Words, w: World, l: nat, i: nat, k: nat)
    requires Inv(m, w) && l in w.lists && i < |w.lists[l]| && k in w.lists
    ensures At(Unlink(m, w.lists[l][i]), k + 1) == 0
  {
    Neighbours(m, w, l, i);
    PlacesApart(|m|, w, l, i, k, 0);
    PlacesApart(|m|, w, l, i + 1, k, 0);
    PlacesApart(|m|, w, l, i + 2, k, 0);
    assert Wired(m, k, w.lists[k]);
  }

  lemma UnlinkJoins(m: Words, w: World, l: nat, i: nat)
    requires Inv(m, w) && l in w.lists && i < |w.lists[l]|
    ensures Joined(Unlink(m, w.lists[l][i]), Path(l, w.lists[l])[i], Path(l, w.lists[l])[i + 2])
  {
    Neighbours(m, w, l, i);
    PlacesApart(|m|, w, l, i, l, i + 2);
    PlacesApart(|m|, w, l, i, l, i + 1);
    PlacesApart(|m|, w, l, i + 1, l, i + 2);
    PlacesApart(|m|, w, l, i + 2, l, i + 1);
  }

  lemma UnlinkLeaves(m: Words, n: nat, x: nat)
    requires x != At(m, n + 1) && x != n && x != n + 1 && x != At(m, n) + 1
    ensures At(Unlink(m, n), x) == At(m, x)
  {
  }

  /** A link not adjacent to the removed node keeps both its words. */
  lemma JoinedStays(m: Words, w: World, l: nat, i: nat, k: nat, j: nat)
    requires Inv(m, w) && l in w.lists && i < |w.lists[l]|
    requires k in w.lists && j <= |w.lists[k]| && !(k == l && i <= j <= i + 1)
    ensures Joined(Unlink(m, w.lists[l][i]), Path(k, w.lists[k])[j], Path(k, w.lists[k])[j + 1])
  {
    hide Layout, OnePlace, Path, Unlink, At, Put;
    Neighbours(m, w, l, i);
    PlacesApart(|m|, w, l, i, k, j);
    PlacesApart(|m|, w, l, i, k, j + 1);
    PlacesApart(|m|, w, l, i + 1, k, j);
    PlacesApart(|m|, w, l, i + 1, k, j + 1);
    PlacesApart(|m|, w, k, j, l, i + 1);
    PlacesApart(|m|, w, k, j, l, i + 2);
    PlacesApart(|m|, w, l, i + 2, k, j + 1);
    var q := Path(k, w.lists[k]);
    UnlinkLeaves(m, w.lists[l][i], q[j]);
    UnlinkLeaves(m, w.lists[l][i], q[j + 1] + 1);
    assert Joined(m, q[j], q[j + 1]);
  }

  lemma UnlinkKeepsWired(m: Words, w: World, l: nat, i: nat, k: nat)
    requires Inv(m, w) && l in w.lists && i < |w.lists[l]| && k in w.lists
    ensures Wired(Unlink(m, w.lists[l][i]), k, Removed(w, l, i).lists[k])
  {
    var t, p := w.lists[k], Path(l, w.lists[l]);
    var m' := Unlink(m, w.lists[l][i]);
    assert At(m', k + 1) == 0 by {
      UnlinkKeepsSharedWord(m, w, l, i, k);
    }
    forall j | 0 <= j <= |t| && !(k == l && i <= j <= i + 1) ensures Joined(m', Path(k, t)[j], Path(k, t)[j + 1]) {
      JoinedStays(m, w, l, i, k, j);
    }
    if k == l {
      UnlinkJoins(m, w, l, i);
      ClosedWired(m', l, t, i);
    }
  }

  /** Removing the node at place i closes the link around it and leaves the node with null links. */
  lemma UnlinkKeepsInv(m: Words, w: World, l: nat, i: nat)
    requires Inv(m, w) && l in w.lists && i < |w.lists[l]|
    ensures Inv(Unlink(m, w.lists[l][i]), Removed(w, l, i))
  {
    var n, w' := w.lists[l][i], Removed(w, l, i);
    var m' := Unlink(m, n);
    RemovedOnePlace(|m|, w, l, i);
    forall k | k in w'.lists ensures Wired(m', k, w'.lists[k]) {
      UnlinkKeepsWired(m, w, l, i, k);
    }
    forall x | x in w'.nodes && !Linked(w', x) ensures At(m', x) == 0 && At(m', x + 1) == 0 {
      UnlinkKeepsFree(m, w, l, i, x);
    }
  }

  // ----- Undoing

  /** The four words the surgery writes are four different words. */
  ghost predicate FourWords(m: Words, a: nat, n: nat, b: nat) {
    && a < |m| && b + 1 < |m| && n + 1 < |m|
    && a != b + 1 && a != n && a != n + 1 && b + 1 != n && b != n
  }

  /** The neighbours an insertion reads, and that its four writes do not collide. */
  lemma InsertFits(m: Words, w: World, l: nat, i: nat, n: nat)
    requires Inv(m, w) && l in w.lists && i <= |w.lists[l]| && n in w.nodes && !Linked(w, n)
    ensures var p := Path(l, w.lists[l]);
      FourWords(m, p[i], n, p[i + 1]) && At(m, p[i]) == p[i + 1] && At(m, p[i + 1] + 1) == p[i]
  {
    FreeApart(|m|, w, n, l, i);
    FreeApart(|m|, w, n, l, i + 1);
    PlacesApart(|m|, w, l, i, l, i + 1);
    PlacesApart(|m|, w, l, i + 1, l, i);
    assert Joined(m, Path(l, w.lists[l])[i], Path(l, w.lists[l])[i + 1]);
  }

  /** The neighbours a removal reads, and that its four writes do not collide. */
  lemma RemoveFits(m: Words, w: World, l: nat, i: nat)
    requires Inv(m, w) && l in w.lists && i < |w.lists[l]|
    ensures var p := Path(l, w.lists[l]);
      FourWords(m, p[i], p[i + 1], p[i + 2]) && At(m, p[i + 1]) == p[i + 2] && At(m, p[i + 1] + 1) == p[i]
  {
    Neighbours(m, w, l, i);
    PlacesApart(|m|, w, l, i, l, i + 2);
    PlacesApart(|m|, w, l, i, l, i + 1);
    PlacesApart(|m|, w, l, i + 1, l, i + 2);
    PlacesApart(|m|, w, l, i + 2, l, i + 1);
  }

  lemma LinkThenUnlink(m: Words, a: nat, n: nat, b: nat)
    requires FourWords(m, a, n, b) && Joined(m, a, b) && At(m, n) == 0 && At(m, n + 1) == 0
    ensures Unlink(Link(m, a, n, b), n) == m
  {
    var m1 := Link(m, a, n, b);
    assert At(m1, n) == b && At(m1, n + 1) == a;
    assert m1 == m[n + 1 := a][n := b][a := n][b + 1 := n];
    var m2: Words := m1[b + 1 := a][a := b][n := 0][n + 1 := 0];
    assert Unlink(m1, n) == m2;
  }

  lemma UnlinkThenLink(m: Words, a: nat, n: nat, b: nat)
    requires FourWords(m, a, n, b) && Joined(m, a, n) && Joined(m, n, b)
    ensures At(Unlink(m, n), a) == b && Link(Unlink(m, n), a, n, b) == m
  {
    var m1 := Unlink(m, n);
    assert m1 == m[b + 1 := a][a := b][n := 0][n + 1 := 0];
    var m2: Words := m1[n + 1 := a][n := b][a := n][b + 1 := n];
    assert Link(m1, a, n, b) == m2;
  }

  /** Inserting a free node anywhere and then removing it restores the whole memory, word for word. */
  lemma UnlinkUndoesLink(m: Words, w: World, l: nat, i: nat, n: nat)
    requires Inv(m, w)
    requires l in w.lists && i <= |w.lists[l]| && n in w.nodes && !Linked(w, n)
    ensures Unlink(Link(m, Path(l, w.lists[l])[i], n, Path(l, w.lists[l])[i + 1]), n) == m
  {
    InsertFits(m, w, l, i, n);
    LinkThenUnlink(m, Path(l, w.lists[l])[i], n, Path(l, w.lists[l])[i + 1]);
  }

  /** Removing a linked node and linking it again after its saved predecessor restores the whole memory. */
  lemma LinkUndoesUnlink(m: Words, w: World, l: nat, i: nat)
    requires Inv(m, w) && l in w.lists && i < |w.lists[l]|
    ensures var n := w.lists[l][i]; var pred, m' := At(m, n + 1), Unlink(m, n);
      Link(m', pred, n, At(m', pred)) == m
  {
    var p := Path(l, w.lists[l]);
    RemoveFits(m, w, l, i);
    assert Joined(m, p[i], p[i + 1]) && Joined(m, p[i + 1], p[i + 2]);
    UnlinkThenLink(m, p[i], p[i + 1], p[i + 2]);
  }
}
