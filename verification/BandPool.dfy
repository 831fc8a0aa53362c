/** What a memory pool built from bands does, on values (MemoryPoolFactory.h over CMemTypeBand of MemBand.h). */
module BandPool {

  /** A band hands out its free objects last in, first out. */
  datatype Band<T> = Band(free: seq<T>, capacity: nat)

  /** Bands from the newest (the head of the chain) to the oldest, and the band in use. */
  datatype Pool<T> = Pool(bands: seq<Band<T>>, cur: nat, extend: nat)

  predicate Full<T>(b: Band<T>) {
    |b.free| == b.capacity
  }

  // ----- Conservation

  ghost function FreeBag<T>(bands: seq<Band<T>>): multiset<T> {
    if bands == [] then multiset{} else multiset(bands[0].free) + FreeBag(bands[1..])
  }

  function Capacity<T>(bands: seq<Band<T>>): nat {
    if bands == [] then 0 else bands[0].capacity + Capacity(bands[1..])
  }

  /** Every band newer than the one in use is full, every older one empty; only the oldest may have no room at all. */
  ghost predicate Balanced<T>(p: Pool<T>) {
    && p.cur < |p.bands| && 0 < p.extend
    && (forall i :: 0 <= i < |p.bands| ==> |p.bands[i].free| <= p.bands[i].capacity)
    && (forall i :: 0 <= i < p.cur ==> Full(p.bands[i]))
    && (forall i :: p.cur < i < |p.bands| ==> p.bands[i].free == [])
    && (forall i :: 0 <= i < |p.bands| - 1 ==> 0 < p.bands[i].capacity)
  }

  /** Free and handed-out objects together are all the objects, each exactly once. */
  ghost predicate Conserved<T>(p: Pool<T>, objects: set<T>, out: set<T>) {
    FreeBag(p.bands) + multiset(out) == multiset(objects) && |objects| == Capacity(p.bands)
  }

  ghost predicate PoolInv<T>(p: Pool<T>, objects: set<T>, out: set<T>) {
    Balanced(p) && Conserved(p, objects, out)
  }

  lemma BagShift<T>(h: multiset<T>, a: multiset<T>, f: multiset<T>, a': multiset<T>, b: multiset<T>)
    requires a' + f == a + b
    ensures (h + a') + f == (h + a) + b
  {
    assert (h + a') + f == h + (a' + f);
    assert (h + a) + b == h + (a + b);
  }

  lemma BagCancel<T>(a: multiset<T>, b: multiset<T>, c: multiset<T>)
    requires a + c == b + c
    ensures a == b
  {
    assert (a + c) - c == a && (b + c) - c == b;
  }

  lemma {:induction false} FreeBagUpdate<T>(bands: seq<Band<T>>, i: nat, b: Band<T>)
    requires i < |bands|
    ensures FreeBag(bands[i := b]) + multiset(bands[i].free) == FreeBag(bands) + multiset(b.free)
    ensures b.capacity == bands[i].capacity ==> Capacity(bands[i := b]) == Capacity(bands)
  {
    if i == 0 {
      assert bands[i := b][1..] == bands[1..];
      var rest, f := FreeBag(bands[1..]), multiset(bands[0].free);
      assert (multiset(b.free) + rest) + f == (f + rest) + multiset(b.free);
    } else {
      assert bands[i := b][1..] == bands[1..][i - 1 := b];
      FreeBagUpdate(bands[1..], i - 1, b);
      BagShift(multiset(bands[0].free), FreeBag(bands[1..]), multiset(bands[i].free),
               FreeBag(bands[1..][i - 1 := b]), multiset(b.free));
    }
  }

  lemma {:induction false} FreeBagSize<T>(bands: seq<Band<T>>)
    requires forall i :: 0 <= i < |bands| ==> |bands[i].free| <= bands[i].capacity
    ensures |FreeBag(bands)| <= Capacity(bands)
    ensures (forall i :: 0 <= i < |bands| ==> Full(bands[i])) ==> |FreeBag(bands)| == Capacity(bands)
  {
    if bands == [] {
    } else {
      FreeBagSize(bands[1..]);
      forall i | 0 <= i < |bands[1..]| ensures bands[1..][i] == bands[i + 1] {}
    }
  }

  lemma {:induction false} FreeInBag<T>(bands: seq<Band<T>>, i: nat, x: T)
    requires i < |bands| && x in bands[i].free
    ensures x in FreeBag(bands)
  {
    if i == 0 {
    } else {
      FreeInBag(bands[1..], i - 1, x);
    }
  }

  // ----- Operations

  datatype Taken<T> = Taken(pool: Pool<T>, item: T)

  /** Take the last free object of band i, which becomes the band in use. */
  function Pop<T>(p: Pool<T>, i: nat): Taken<T>
    requires i < |p.bands| && p.bands[i].free != []
  {
    var b := p.bands[i];
    Taken(p.(bands := p.bands[i := b.(free := b.free[..|b.free| - 1])], cur := i), b.free[|b.free| - 1])
  }

  /** Return an object to band i, which becomes the band in use. */
  function Push<T>(p: Pool<T>, i: nat, x: T): Pool<T>
    requires i < |p.bands|
  {
    var b := p.bands[i];
    p.(bands := p.bands[i := b.(free := b.free + [x])], cur := i)
  }

  function Grown<T>(p: Pool<T>, supply: seq<T>): Pool<T> {
    p.(bands := [Band(supply, |supply|)] + p.bands, cur := 0)
  }

  predicate MustGrow<T>(p: Pool<T>)
    requires p.cur < |p.bands|
  {
    p.bands[p.cur].free == [] && p.cur == 0
  }

  /** CMemoryPoolFactory::Alloc; `supply` are the objects a new band would bring. */
  function Alloc<T>(p: Pool<T>, supply: seq<T>): Taken<T>
    requires Balanced(p) && (MustGrow(p) ==> |supply| == p.extend)
  {
    if p.bands[p.cur].free != [] then Pop(p, p.cur)
    else if p.cur == 0 then Pop(Grown(p, supply), 0)
    else assert Full(p.bands[p.cur - 1]); Pop(p, p.cur - 1)
  }

  lemma AllocCases<T>(p: Pool<T>, supply: seq<T>)
    requires Balanced(p) && (MustGrow(p) ==> |supply| == p.extend)
    ensures p.bands[p.cur].free != [] ==> Alloc(p, supply) == Pop(p, p.cur)
    ensures MustGrow(p) ==>
      var g := Grown(p, supply); g.cur == 0 && g.bands[0].free == supply != [] && Alloc(p, supply) == Pop(g, 0)
    ensures p.bands[p.cur].free == [] && p.cur != 0 ==>
      p.bands[p.cur - 1].free != [] && Alloc(p, supply) == Pop(p.(cur := p.cur - 1), p.cur - 1)
  {
    if p.cur != 0 { assert Full(p.bands[p.cur - 1]); }
  }

  /** CMemoryPoolFactory::Free: an object that fits neither band is dropped. */
  function Free<T>(p: Pool<T>, x: T): Pool<T>
    requires Balanced(p)
  {
    if !Full(p.bands[p.cur]) then Push(p, p.cur, x)
    else if p.cur + 1 == |p.bands| then p
    else if !Full(p.bands[p.cur + 1]) then Push(p, p.cur + 1, x)
    else p.(cur := p.cur + 1)
  }

  lemma FreeCases<T>(p: Pool<T>, x: T)
    requires Balanced(p)
    ensures !Full(p.bands[p.cur]) ==> Free(p, x) == Push(p, p.cur, x)
    ensures Full(p.bands[p.cur]) && p.cur + 1 < |p.bands| && !Full(p.bands[p.cur + 1]) ==>
      Free(p, x) == Push(p.(cur := p.cur + 1), p.cur + 1, x)
  {
  }

  // ----- Theorems

  lemma SetSizes<T>(a: set<T>, b: set<T>)
    requires a !! b
    ensures |a + b| == |a| + |b| && multiset(a + b) == multiset(a) + multiset(b)
  {
  }

  lemma DistinctSize<T>(s: seq<T>)
    requires forall i, j :: 0 <= i < j < |s| ==> s[i] != s[j]
    ensures multiset(s) == multiset(set x | x in s) && |set x | x in s| == |s|
  {
    if s == [] {
    } else {
      var t, x := s[..|s| - 1], s[|s| - 1];
      DistinctSize(t);
      assert s == t + [x];
      assert (set y | y in s) == (set y | y in t) + {x};
      SetSizes(set y | y in t, {x});
    }
  }

  /** Initialize: one band, everything free. */
  lemma FirstBand<T>(free: seq<T>, extend: nat)
    requires 0 < extend && forall i, j :: 0 <= i < j < |free| ==> free[i] != free[j]
    ensures PoolInv(Pool([Band(free, |free|)], 0, extend), set x | x in free, {}) && |set x | x in free| == |free|
  {
    DistinctSize(free);
  }

  lemma PopConserves<T>(p: Pool<T>, i: nat, objects: set<T>, out: set<T>)
    requires i < |p.bands| && p.bands[i].free != [] && Conserved(p, objects, out)
    ensures var t := Pop(p, i); t.item in objects && t.item !in out && Conserved(t.pool, objects, out + {t.item})
  {
    var b, t := p.bands[i], Pop(p, i);
    var x, rest := t.item, b.free[..|b.free| - 1];
    assert b.free == rest + [x];
    FreeBagUpdate(p.bands, i, b.(free := rest));
    FreeInBag(p.bands, i, x);
    assert x !in out by { assert (FreeBag(p.bands) + multiset(out))[x] == multiset(objects)[x]; }
    assert x in multiset(objects);
    SetSizes(out, {x});
    var bag := FreeBag(t.pool.bands);
    assert (bag + multiset{x}) + multiset(rest) == FreeBag(p.bands) + multiset(rest) by {
      assert multiset(b.free) == multiset(rest) + multiset{x};
    }
    BagCancel(bag + multiset{x}, FreeBag(p.bands), multiset(rest));
    assert bag + multiset(out + {x}) == (bag + multiset{x}) + multiset(out);
  }

  lemma PushConserves<T>(p: Pool<T>, i: nat, x: T, objects: set<T>, out: set<T>)
    requires i < |p.bands| && x in out && Conserved(p, objects, out)
    ensures Conserved(Push(p, i, x), objects, out - {x})
  {
    var b, bag := p.bands[i], FreeBag(Push(p, i, x).bands);
    FreeBagUpdate(p.bands, i, b.(free := b.free + [x]));
    assert out == (out - {x}) + {x};
    SetSizes(out - {x}, {x});
    assert bag + multiset(b.free) == (FreeBag(p.bands) + multiset{x}) + multiset(b.free);
    BagCancel(bag, FreeBag(p.bands) + multiset{x}, multiset(b.free));
    assert bag + multiset(out - {x}) == FreeBag(p.bands) + (multiset(out - {x}) + multiset{x});
  }

  lemma GrowConserves<T>(p: Pool<T>, supply: seq<T>, objects: set<T>, out: set<T>)
    requires Conserved(p, objects, out)
    requires forall i, j :: 0 <= i < j < |supply| ==> supply[i] != supply[j]
    requires forall x :: x in supply ==> x !in objects
    ensures Conserved(Grown(p, supply), objects + (set x | x in supply), out)
  {
    DistinctSize(supply);
    SetSizes(objects, set x | x in supply);
    assert Grown(p, supply).bands[1..] == p.bands;
  }

  lemma {:induction false} NothingFree<T>(bands: seq<Band<T>>)
    ensures FreeBag(bands) == multiset{} <==> forall i :: 0 <= i < |bands| ==> bands[i].free == []
  {
    if bands == [] {
    } else {
      NothingFree(bands[1..]);
      forall i | 0 <= i < |bands[1..]| ensures bands[1..][i] == bands[i + 1] {}
      if bands[0].free != [] { assert bands[0].free[0] in FreeBag(bands); }
    }
  }

  lemma GrowsWhenAllOut<T>(p: Pool<T>, objects: set<T>, out: set<T>)
    requires PoolInv(p, objects, out)
    ensures MustGrow(p) <==> out == objects
  {
    NothingFree(p.bands);
    assert 0 < p.cur ==> Full(p.bands[0]) && 0 < p.bands[0].capacity;
    if out == objects {
      BagCancel(FreeBag(p.bands), multiset{}, multiset(out));
    }
    if MustGrow(p) {
      assert multiset(out) == multiset(objects);
      assert forall x :: x in out <==> x in multiset(out);
    }
  }

  lemma AllocBalanced<T>(p: Pool<T>, supply: seq<T>)
    requires Balanced(p) && (MustGrow(p) ==> |supply| == p.extend)
    ensures Balanced(Alloc(p, supply).pool)
  {
    if p.cur != 0 { assert Full(p.bands[p.cur - 1]); }
  }

  /** Which band is in use does not matter to conservation. */
  lemma MoveConserves<T>(p: Pool<T>, i: nat, objects: set<T>, out: set<T>)
    requires Conserved(p, objects, out)
    ensures Conserved(p.(cur := i), objects, out)
  {
  }

  lemma AllocConserves<T>(p: Pool<T>, supply: seq<T>, objects: set<T>, out: set<T>)
    requires Balanced(p) && Conserved(p, objects, out) && (MustGrow(p) ==> |supply| == p.extend)
    requires forall i, j :: 0 <= i < j < |supply| ==> supply[i] != supply[j]
    requires forall x :: x in supply ==> x !in objects
    ensures var t := Alloc(p, supply); var objects' := if MustGrow(p) then objects + (set x | x in supply) else objects;
      t.item in objects' && t.item !in out && Conserved(t.pool, objects', out + {t.item})
  {
    hide Conserved, Pop, Alloc;
    AllocCases(p, supply);
    if p.bands[p.cur].free != [] {
      PopConserves(p, p.cur, objects, out);
    } else if p.cur == 0 {
      GrowConserves(p, supply, objects, out);
      PopConserves(Grown(p, supply), 0, objects + (set x | x in supply), out);
    } else {
      MoveConserves(p, p.cur - 1, objects, out);
      PopConserves(p.(cur := p.cur - 1), p.cur - 1, objects, out);
    }
  }

  /** Alloc never fails: it hands out an object nobody holds, adding a band only when every object is out. */
  lemma AllocKeepsInv<T>(p: Pool<T>, supply: seq<T>, objects: set<T>, out: set<T>)
    requires PoolInv(p, objects, out) && (MustGrow(p) ==> |supply| == p.extend)
    requires forall i, j :: 0 <= i < j < |supply| ==> supply[i] != supply[j]
    requires forall x :: x in supply ==> x !in objects
    ensures var t := Alloc(p, supply); var objects' := if MustGrow(p) then objects + (set x | x in supply) else objects;
      PoolInv(t.pool, objects', out + {t.item}) && t.item in objects' && t.item !in out
    ensures MustGrow(p) <==> out == objects
  {
    hide Conserved, Balanced, Alloc, Pop, Grown, MustGrow;
    AllocBalanced(p, supply);
    AllocConserves(p, supply, objects, out);
    GrowsWhenAllOut(p, objects, out);
  }

  lemma RoomSomewhere<T>(p: Pool<T>, x: T, objects: set<T>, out: set<T>)
    requires PoolInv(p, objects, out) && x in out
    ensures exists j :: 0 <= j < |p.bands| && !Full(p.bands[j])
  {
    FreeBagSize(p.bands);
    assert |multiset(out)| == |out| && |multiset(objects)| == |objects|;
    assert |FreeBag(p.bands) + multiset(out)| == |objects|;
    assert out != {};
  }

  /** An outstanding object always finds room: Free never drops it, and the cursor never runs off the old end. */
  lemma FreeKeepsInv<T>(p: Pool<T>, x: T, objects: set<T>, out: set<T>)
    requires PoolInv(p, objects, out) && x in out
    ensures PoolInv(Free(p, x), objects, out - {x})
    ensures exists i :: p.cur <= i <= p.cur + 1 && i < |p.bands| && !Full(p.bands[i]) && Free(p, x) == Push(p, i, x)
  {
    hide Conserved;
    RoomSomewhere(p, x, objects, out);
    var j :| 0 <= j < |p.bands| && !Full(p.bands[j]);
    var i := if !Full(p.bands[p.cur]) then p.cur else p.cur + 1;
    assert p.cur <= j && p.bands[j].free == [] <== p.cur < j;
    PushConserves(p, i, x, objects, out);
  }

  lemma PopUndoesPush<T>(p: Pool<T>, i: nat, x: T)
    requires i < |p.bands|
    ensures var q := Push(p, i, x);
      && q.cur == i < |q.bands| && q.bands[i].free != []
      && Pop(q, i).item == x && Pop(q, i).pool.bands == p.bands
  {
    var b := p.bands[i];
    assert (b.free + [x])[..|b.free + [x]| - 1] == b.free;
    assert p.bands[i := b.(free := b.free + [x])][i := b] == p.bands;
  }

  lemma PopsCurrent<T>(p: Pool<T>, supply: seq<T>)
    requires Balanced(p) && p.cur < |p.bands| && p.bands[p.cur].free != []
    ensures !MustGrow(p) && Alloc(p, supply) == Pop(p, p.cur)
  {
  }

  /** Last in, first out: the next Alloc hands out the object just freed, and every band is as before. */
  lemma AllocReturnsLastFreed<T>(p: Pool<T>, x: T, supply: seq<T>, objects: set<T>, out: set<T>)
    requires PoolInv(p, objects, out) && x in out
    ensures Balanced(Free(p, x)) && !MustGrow(Free(p, x))
    ensures Alloc(Free(p, x), supply).item == x && Alloc(Free(p, x), supply).pool.bands == p.bands
  {
    hide Conserved, Balanced, Free, Alloc, MustGrow;
    FreeKeepsInv(p, x, objects, out);
    var i :| p.cur <= i <= p.cur + 1 && i < |p.bands| && !Full(p.bands[i]) && Free(p, x) == Push(p, i, x);
    PopUndoesPush(p, i, x);
    PopsCurrent(Push(p, i, x), supply);
  }

  // ----- Sizes

  /** The oldest band has the size the pool was begun with, all others the size it grows by. */
  ghost predicate Sized<T>(p: Pool<T>, basic: nat) {
    && p.bands != [] && p.bands[|p.bands| - 1].capacity == basic
    && forall i :: 0 <= i < |p.bands| - 1 ==> p.bands[i].capacity == p.extend
  }

  lemma {:induction false} CapacityOfBands<T>(bands: seq<Band<T>>, basic: nat, extend: nat)
    requires bands != [] && bands[|bands| - 1].capacity == basic
    requires forall i :: 0 <= i < |bands| - 1 ==> bands[i].capacity == extend
    ensures Capacity(bands) == basic + (|bands| - 1) * extend
  {
    if |bands| == 1 {
      assert bands[1..] == [];
    } else {
      CapacityOfBands(bands[1..], basic, extend);
      assert (|bands| - 1) * extend == (|bands| - 2) * extend + extend;
    }
  }

  lemma PopKeepsSized<T>(p: Pool<T>, i: nat, basic: nat)
    requires i < |p.bands| && p.bands[i].free != [] && Sized(p, basic)
    ensures Sized(Pop(p, i).pool, basic) && Pop(p, i).pool.extend == p.extend
    ensures |Pop(p, i).pool.bands| == |p.bands|
  {
  }

  lemma GrownSized<T>(p: Pool<T>, supply: seq<T>, basic: nat)
    requires Sized(p, basic) && |supply| == p.extend
    ensures Sized(Grown(p, supply), basic) && Grown(p, supply).extend == p.extend
  {
    var g := Grown(p, supply);
    forall i | 0 <= i < |g.bands| - 1 ensures g.bands[i].capacity == g.extend {
      if 0 < i { assert g.bands[i] == p.bands[i - 1]; }
    }
  }

  lemma AllocPlace<T>(p: Pool<T>)
    requires Balanced(p)
    ensures p.cur < |p.bands| && 0 < p.extend
  {
  }

  lemma GrownLength<T>(p: Pool<T>, supply: seq<T>)
    ensures |Grown(p, supply).bands| == |p.bands| + 1
  {
  }

  lemma MoveKeepsSized<T>(p: Pool<T>, i: nat, basic: nat)
    requires Sized(p, basic)
    ensures Sized(p.(cur := i), basic)
  {
  }

  /** Alloc adds one band exactly when it must grow. */
  lemma AllocKeepsSized<T>(p: Pool<T>, supply: seq<T>, basic: nat)
    requires Balanced(p) && Sized(p, basic) && (MustGrow(p) ==> |supply| == p.extend)
    ensures var q := Alloc(p, supply).pool;
      Sized(q, basic) && q.extend == p.extend && |q.bands| == |p.bands| + if MustGrow(p) then 1 else 0
  {
    hide Balanced, Sized, Alloc, Pop, Grown;
    AllocCases(p, supply);
    AllocPlace(p);
    if p.bands[p.cur].free != [] {
      PopKeepsSized(p, p.cur, basic);
    } else if p.cur == 0 {
      GrownSized(p, supply, basic);
      GrownLength(p, supply);
      PopKeepsSized(Grown(p, supply), 0, basic);
    } else {
      MoveKeepsSized(p, p.cur - 1, basic);
      PopKeepsSized(p.(cur := p.cur - 1), p.cur - 1, basic);
    }
  }

  lemma FreeKeepsSized<T>(p: Pool<T>, x: T, basic: nat)
    requires Balanced(p) && Sized(p, basic)
    ensures Sized(Free(p, x), basic) && Free(p, x).extend == p.extend && |Free(p, x).bands| == |p.bands|
  {
  }
}
