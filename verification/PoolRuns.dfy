/** CMemoryPoolFactory over whole runs: how many objects a pool comes to own (MemBand.h, MemoryPoolFactory.h). */
module PoolRuns {
  import opened Arith
  import BandPool
  import opened MemoryPool

  /** Take an object, or give back the i-th of those held; giving back what is not held does nothing. */
  datatype PoolOp = Take | Give(i: nat)

  /** How many are held at the end, and the most that were held at once. */
  datatype Load = Load(held: nat, peak: nat)

  function StepLoad(l: Load, op: PoolOp): Load {
    match op
    case Take => Load(l.held + 1, if l.peak < l.held + 1 then l.held + 1 else l.peak)
    case Give(i) => if i < l.held then l.(held := l.held - 1) else l
  }

  function RunLoad(l: Load, ops: seq<PoolOp>): Load
    decreases |ops|
  {
    if ops == [] then l else RunLoad(StepLoad(l, ops[0]), ops[1..])
  }

  /** So many objects suffice for the peak, and one extension less would not. */
  predicate Least(objects: nat, basic: nat, extend: nat, growths: nat, peak: nat) {
    && objects == basic + growths * extend
    && peak <= objects
    && (0 < growths ==> objects < peak + extend)
  }

  lemma LeastGrows(objects: nat, basic: nat, extend: nat, growths: nat, peak: nat)
    requires Least(objects, basic, extend, growths, peak) && 0 < extend && peak == objects
    ensures Least(objects + extend, basic, extend, growths + 1, peak + 1)
  {
    assert (growths + 1) * extend == growths * extend + extend;
  }

  lemma FurtherIsMore(extend: nat, g: nat, h: nat)
    requires g < h
    ensures g * extend + extend <= h * extend
  {
    MulAtMost(g + 1, h, extend);
    assert (g + 1) * extend == g * extend + extend;
  }

  /** There is only one such size: a pool of this size grows no further and needs to grow this far. */
  lemma LeastIsUnique(a: nat, b: nat, basic: nat, extend: nat, g: nat, h: nat, peak: nat)
    requires Least(a, basic, extend, g, peak) && Least(b, basic, extend, h, peak)
    ensures a == b && (0 < extend ==> g == h)
  {
    if g < h {
      FurtherIsMore(extend, g, h);
    } else if h < g {
      FurtherIsMore(extend, h, g);
    }
  }

  ghost predicate AllDifferent(held: seq<Node>) {
    forall i, j :: 0 <= i < j < |held| ==> held[i] != held[j]
  }

  ghost function NodesOf(held: seq<Node>): set<Node> {
    set n | n in held
  }

  /** Exactly these are outstanding. */
  ghost predicate Holds(pool: MemoryPoolFactory, held: seq<Node>)
    reads pool
  {
    AllDifferent(held) && pool.out == NodesOf(held)
  }

  lemma HeldSnoc(held: seq<Node>, pn: Node)
    requires AllDifferent(held) && pn !in NodesOf(held)
    ensures AllDifferent(held + [pn]) && NodesOf(held + [pn]) == NodesOf(held) + {pn}
  {
  }

  lemma HeldWithout(held: seq<Node>, i: nat)
    requires AllDifferent(held) && i < |held|
    ensures held[i] in NodesOf(held)
    ensures AllDifferent(held[..i] + held[i + 1..])
    ensures NodesOf(held[..i] + held[i + 1..]) == NodesOf(held) - {held[i]}
  {
    assert held == held[..i] + [held[i]] + held[i + 1..];
  }

  lemma HeldCount(held: seq<Node>)
    requires AllDifferent(held)
    ensures |NodesOf(held)| == |held|
  {
    if held == [] {
    } else {
      var init, last := held[..|held| - 1], held[|held| - 1];
      HeldCount(init);
      assert held == init + [last];
      assert NodesOf(held) == NodesOf(init) + {last};
    }
  }

  /** The pool owns the least number of objects for the peak so far. */
  ghost predicate Fits(pool: MemoryPoolFactory, held: seq<Node>, l: Load)
    reads pool
  {
    && l.held == |held| && Holds(pool, held) && |pool.chain| >= 1 && |held| <= l.peak
    && Least(|pool.objects|, pool.basic, pool.poolExtendSize, |pool.chain| - 1, l.peak)
  }

  lemma SubsetSizes(a: set<Node>, b: set<Node>)
    requires a <= b
    ensures |a| <= |b| && (|a| == |b| ==> a == b)
  {
    assert b == a + (b - a);
  }

  lemma TakeKeepsLeast(objects: nat, basic: nat, extend: nat, growths: nat, l: Load, full: bool, objects': nat)
    requires Least(objects, basic, extend, growths, l.peak) && l.held <= l.peak && 0 < extend
    requires l.held <= objects && (full <==> l.held == objects)
    requires objects' == basic + (growths + if full then 1 else 0) * extend
    ensures Least(objects', basic, extend, growths + if full then 1 else 0, StepLoad(l, Take).peak)
  {
    if full {
      LeastGrows(objects, basic, extend, growths, l.peak);
      assert (growths + 1) * extend == growths * extend + extend;
    }
  }

  method TakeOne(pool: MemoryPoolFactory, held: seq<Node>, ghost l: Load) returns (r: seq<Node>)
    requires pool.Valid() && Fits(pool, held, l)
    modifies pool.Repr
    ensures pool.Valid() && fresh(pool.Repr - old(pool.Repr)) && Fits(pool, r, StepLoad(l, Take))
    ensures pool.poolExtendSize == old(pool.poolExtendSize)
  {
    hide MemoryPoolFactory.Valid, Least, AllDifferent, NodesOf, BandPool.Alloc;
    HeldCount(held);
    pool.NodesOutside();
    SubsetSizes(pool.out, pool.objects);
    pool.ObjectsCounted();
    ghost var objects, extend, growths := |pool.objects|, pool.poolExtendSize, |pool.chain| - 1;
    ghost var full := pool.out == pool.objects;
    ghost var supply;
    var pn;
    pn, supply := pool.Alloc();
    r := held + [pn];
    HeldSnoc(held, pn);
    pool.ObjectsCounted();
    TakeKeepsLeast(objects, pool.basic, extend, growths, l, full, |pool.objects|);
  }

  method GiveOne(pool: MemoryPoolFactory, held: seq<Node>, i: nat, ghost l: Load) returns (r: seq<Node>)
    requires pool.Valid() && Fits(pool, held, l)
    modifies pool.Repr
    ensures pool.Valid() && pool.Repr == old(pool.Repr) && Fits(pool, r, StepLoad(l, Give(i)))
    ensures pool.poolExtendSize == old(pool.poolExtendSize)
  {
    hide MemoryPoolFactory.Valid, Least, AllDifferent, NodesOf, BandPool.Free;
    r := held;
    if i < |held| {
      HeldWithout(held, i);
      pool.Free(held[i]);
      r := held[..i] + held[i + 1..];
    }
  }

  lemma BeginsLeast(basic: nat, extend: nat)
    ensures Least(basic, basic, extend, 0, 0)
  {
  }

  /** A pool as Initialize leaves it, over any run: at the end it owns its basic size and as many extensions as the most
      objects held at once required, and GetAvailableNumberOfTypes counts those not held, modulo 2^32. */
  method DrivePool(pool: MemoryPoolFactory, ops: seq<PoolOp>) returns (held: seq<Node>, available: nat)
    requires pool.Valid() && pool.out == {} && |pool.objects| == pool.basic && |pool.chain| == 1
    modifies pool.Repr
    ensures pool.Valid() && pool.poolExtendSize == old(pool.poolExtendSize) && |pool.chain| >= 1
    ensures var l := RunLoad(Load(0, 0), ops);
      && |held| == l.held && Holds(pool, held)
      && Least(|pool.objects|, pool.basic, pool.poolExtendSize, |pool.chain| - 1, l.peak)
    ensures available == (|pool.objects| - |held|) % DWORD_RANGE
  {
    hide MemoryPoolFactory.Valid, Least, StepLoad, DWORD_RANGE;
    held := [];
    ghost var l := Load(0, 0);
    BeginsLeast(pool.basic, pool.poolExtendSize);
    assert ops[0..] == ops;
    for k := 0 to |ops|
      invariant pool.Valid() && fresh(pool.Repr - old(pool.Repr)) && Fits(pool, held, l)
      invariant pool.poolExtendSize == old(pool.poolExtendSize)
      invariant RunLoad(l, ops[k..]) == RunLoad(Load(0, 0), ops)
    {
      assert ops[k..][0] == ops[k] && ops[k..][1..] == ops[k + 1..];
      match ops[k] {
        case Take => held := TakeOne(pool, held, l);
        case Give(i) => held := GiveOne(pool, held, i, l);
      }
      l := StepLoad(l, ops[k]);
    }
    HeldCount(held);
    available := pool.GetAvailableNumberOfTypes();
  }

  function Takes(n: nat): seq<PoolOp> {
    seq(n, _ => Take)
  }

  lemma {:induction false} TakesLoad(l: Load, n: nat)
    requires l.peak == l.held
    ensures RunLoad(l, Takes(n)) == Load(l.held + n, l.held + n)
    decreases n
  {
    if n == 0 {
    } else {
      assert Takes(n)[1..] == Takes(n - 1) && Takes(n)[0] == Take;
      TakesLoad(Load(l.held + 1, l.held + 1), n - 1);
    }
  }

  /** A pool of ten with the default extension, which is six, after eleven allocations: five are left. */
  method ElevenOfTen() returns (available: nat)
    ensures available == 5
  {
    hide MemoryPoolFactory.Valid;
    var pool := new MemoryPoolFactory(10, 0);
    pool.ObjectsCounted();
    TakesLoad(Load(0, 0), 11);
    var held;
    held, available := DrivePool(pool, Takes(11));
    LeastIsUnique(|pool.objects|, 16, 10, 6, |pool.chain| - 1, 1, 11);
  }
}
