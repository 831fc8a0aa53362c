/** The live pool of list nodes: chained bands of preallocated objects (MemBand.h, MemoryPoolFactory.h). */
module MemoryPool {
  import opened BandPool

  const DWORD_RANGE := 0x1_0000_0000

  /** CList's NODE, the object type this pool serves. */
  class Node {
    var pElement: int
    var pPrev: Node?
    var pNext: Node?

    constructor ()
    {
      pElement, pPrev, pNext := 0, null, null;
    }
  }

  /** CMemTypeBand: `ppDataType[..freeIdx]` is the stack of free objects. */
  class TypeBand {
    const ppDataType: array<Node>
    const nMaxBandObjectNum: nat
    var freeIdx: nat
    var pPrev: TypeBand?
    var pNext: TypeBand?

    ghost predicate Shows(b: Band<Node>)
      reads `freeIdx, ppDataType
    {
      && freeIdx <= nMaxBandObjectNum == ppDataType.Length < DWORD_RANGE
      && b == Band(ppDataType[..freeIdx], nMaxBandObjectNum)
    }

    /** The allocating half of AllocBand: `nMaxObject` new objects, all free, in order. */
    constructor (nMaxObject: nat)
      requires nMaxObject < DWORD_RANGE
      ensures pPrev == null && pNext == null && fresh(ppDataType)
      ensures ppDataType.Length == nMaxObject && Shows(Band(ppDataType[..], nMaxObject))
      ensures forall i :: 0 <= i < ppDataType.Length ==> fresh(ppDataType[i])
      ensures forall i, j :: 0 <= i < j < ppDataType.Length ==> ppDataType[i] != ppDataType[j]
    {
      var objects: seq<Node> := [];
      while |objects| < nMaxObject
        invariant |objects| <= nMaxObject
        invariant forall i :: 0 <= i < |objects| ==> fresh(objects[i])
        invariant forall i, j :: 0 <= i < j < |objects| ==> objects[i] != objects[j]
      {
        var o := new Node();
        objects := objects + [o];
      }
      ppDataType := new Node[nMaxObject](i requires 0 <= i < |objects| => objects[i]);
      nMaxBandObjectNum := nMaxObject;
      freeIdx := nMaxObject;
      pPrev, pNext := null, null;
    }

    /** AlloObject: the unsigned index is decremented first, and wraps when the band is empty. */
    method AlloObject(ghost b: Band<Node>) returns (r: Node?)
      requires Shows(b)
      modifies `freeIdx
      ensures if b.free == [] then r == null && Shows(b)
        else r == b.free[|b.free| - 1] && Shows(b.(free := b.free[..|b.free| - 1]))
    {
      freeIdx := if freeIdx == 0 then 0xffff_ffff else freeIdx - 1;
      if freeIdx == 0xffff_ffff {
        freeIdx := 0;
        r := null;
      } else {
        r := ppDataType[freeIdx];
      }
    }

    /** FreeObject. */
    method FreeObject(data: Node, ghost b: Band<Node>) returns (ok: bool)
      requires Shows(b)
      modifies `freeIdx, ppDataType
      ensures ok == !Full(b)
      ensures Shows(if ok then b.(free := b.free + [data]) else b)
    {
      if freeIdx < nMaxBandObjectNum {
        ppDataType[freeIdx] := data;
        freeIdx := freeIdx + 1;
        ok := true;
      } else {
        ok := false;
      }
    }
  }

  ghost predicate Separate(chain: seq<TypeBand>) {
    forall i, j :: 0 <= i < j < |chain| ==> chain[i] != chain[j] && chain[i].ppDataType != chain[j].ppDataType
  }

  /** Each band shows its part of the model. */
  ghost predicate Showing(chain: seq<TypeBand>, bands: seq<Band<Node>>)
    requires |chain| == |bands|
    reads (set b | b in chain)`freeIdx, set b | b in chain :: b.ppDataType
  {
    forall i :: 0 <= i < |chain| ==> chain[i].Shows(bands[i])
  }

  lemma ShowingCons(pp: TypeBand, b: Band<Node>, chain: seq<TypeBand>, bands: seq<Band<Node>>)
    requires |chain| == |bands| && pp.Shows(b) && Showing(chain, bands)
    ensures Showing([pp] + chain, [b] + bands)
  {
  }

  function BandAt(chain: seq<TypeBand>, i: int): TypeBand? {
    if 0 <= i < |chain| then chain[i] else null
  }

  /** The chain is linked both ways, from the newest band to the oldest. */
  ghost predicate Doubly(chain: seq<TypeBand>)
    reads (set b | b in chain)`pPrev, (set b | b in chain)`pNext
  {
    forall i :: 0 <= i < |chain| ==> chain[i].pNext == BandAt(chain, i + 1) && chain[i].pPrev == BandAt(chain, i - 1)
  }

  method TakeFrom(band: TypeBand, ghost chain: seq<TypeBand>, ghost bands: seq<Band<Node>>, ghost i: nat)
    returns (r: Node?)
    requires |chain| == |bands| && i < |chain| && chain[i] == band && Separate(chain) && Showing(chain, bands)
    modifies band`freeIdx
    ensures bands[i].free == [] ==> r == null && Showing(chain, bands)
    ensures bands[i].free != [] ==>
      && r == bands[i].free[|bands[i].free| - 1]
      && Showing(chain, bands[i := bands[i].(free := bands[i].free[..|bands[i].free| - 1])])
  {
    r := band.AlloObject(bands[i]);
    assert forall j :: 0 <= j < |chain| && j != i ==> chain[j] != band;
  }

  method GiveTo(band: TypeBand, data: Node, ghost chain: seq<TypeBand>, ghost bands: seq<Band<Node>>, ghost i: nat)
    returns (ok: bool)
    requires |chain| == |bands| && i < |chain| && chain[i] == band && Separate(chain) && Showing(chain, bands)
    modifies band`freeIdx, band.ppDataType
    ensures ok == !Full(bands[i])
    ensures Showing(chain, if ok then bands[i := bands[i].(free := bands[i].free + [data])] else bands)
  {
    ok := band.FreeObject(data, bands[i]);
    assert forall j :: 0 <= j < |chain| && j != i ==> chain[j] != band && chain[j].ppDataType != band.ppDataType;
  }

  lemma FreeBagFrom(bands: seq<Band<Node>>, k: nat)
    requires k <= |bands|
    ensures |FreeBag(bands[k..])| == if k == |bands| then 0 else |bands[k].free| + |FreeBag(bands[k + 1..])|
  {
    if k < |bands| {
      assert bands[k..][0] == bands[k] && bands[k..][1..] == bands[k + 1..];
      assert |multiset(bands[k].free)| == |bands[k].free|;
    }
  }

  lemma WrapOnce(a: nat, b: nat, c: nat)
    ensures ((a + b) % DWORD_RANGE + c) % DWORD_RANGE == (a + (b + c)) % DWORD_RANGE
  {
  }

  lemma SeparateCons(pp: TypeBand, chain: seq<TypeBand>)
    requires Separate(chain)
    requires forall i :: 0 <= i < |chain| ==> chain[i] != pp && chain[i].ppDataType != pp.ppDataType
    ensures Separate([pp] + chain)
  {
  }

  /** The chaining half of AllocBand. */
  method Prepend(pp: TypeBand, head: TypeBand, ghost chain: seq<TypeBand>)
    requires chain != [] && chain[0] == head && Separate([pp] + chain) && Doubly(chain) && pp.pPrev == null
    modifies pp`pNext, head`pPrev
    ensures Doubly([pp] + chain)
  {
    ghost var d := [pp] + chain;
    assert d[0] == pp && forall i :: 0 < i < |d| ==> d[i] == chain[i - 1];
    assert forall i :: 0 < i < |d| ==> d[i] != d[0];
    pp.pNext := head;
    head.pPrev := pp;
    forall i | 0 <= i < |d| ensures d[i].pNext == BandAt(d, i + 1) && d[i].pPrev == BandAt(d, i - 1) {
      if 0 < i {
        assert d[i] == chain[i - 1] && d[i] != pp;
        assert BandAt(d, i + 1) == BandAt(chain, i);
        assert 1 < i ==> d[i] != head && BandAt(d, i - 1) == BandAt(chain, i - 2);
      }
    }
  }

  /** CMemoryPoolFactory<NODE>. */
  class MemoryPoolFactory {
    var bandHead: TypeBand?
    var freeBand: TypeBand?
    var poolExtendSize: nat

    /** The chain from the newest band to the oldest, and what it shows. */
    ghost var chain: seq<TypeBand>
    ghost var model: Pool<Node>
    /** Every node ever allocated, and those handed out. */
    ghost var objects: set<Node>
    ghost var out: set<Node>
    ghost var Repr: set<object>
    /** The size the pool was begun with. */
    ghost const basic: nat

    /** The bands are linked both ways, and each shows its part of the model. */
    ghost predicate Linked()
      reads this, Repr
    {
      && this in Repr
      && (forall i :: 0 <= i < |chain| ==> chain[i] in Repr && chain[i].ppDataType in Repr)
      && (forall o :: o in Repr ==> !(o is Node))
      && |chain| == |model.bands| && model.cur < |chain| && poolExtendSize == model.extend < DWORD_RANGE
      && Separate(chain) && Showing(chain, model.bands) && Doubly(chain)
      && bandHead == chain[0]
      && freeBand == chain[model.cur]
    }

    ghost predicate Valid()
      reads this, Repr
    {
      Linked() && PoolInv(model, objects, out) && Sized(model, basic)
    }

    lemma OneBandLinked(band: TypeBand, b: Band<Node>)
      requires band.Shows(b) && band.pPrev == null && band.pNext == null
      requires bandHead == freeBand == band && chain == [band] && Repr == {this, band, band.ppDataType}
      requires model.bands == [b] && model.cur == 0 && poolExtendSize == model.extend < DWORD_RANGE
      ensures Linked()
    {
    }

    /** The constructor followed by Initialize. */
    constructor (poolBasicSize: nat, extendSize: nat)
      requires poolBasicSize < DWORD_RANGE && extendSize < DWORD_RANGE
      ensures Valid() && fresh(Repr) && out == {} && fresh(objects) && |objects| == poolBasicSize
      ensures basic == poolBasicSize
      ensures poolExtendSize == if extendSize == 0 then poolBasicSize / 2 + 1 else extendSize
    {
      assert 0 < poolBasicSize / 2 + 1 < DWORD_RANGE;
      poolExtendSize := if extendSize == 0 then poolBasicSize / 2 + 1 else extendSize;
      var band := new TypeBand(poolBasicSize);
      bandHead, freeBand := band, band;
      chain := [band];
      ghost var free := band.ppDataType[..];
      model := Pool([Band(free, poolBasicSize)], 0, if extendSize == 0 then poolBasicSize / 2 + 1 else extendSize);
      objects, out := set x | x in free, {};
      Repr := {this, band, band.ppDataType};
      basic := poolBasicSize;
      new;
      hide TypeBand.Shows, Linked, PoolInv;
      OneBandLinked(band, Band(free, poolBasicSize));
      FirstBand(free, poolExtendSize);
    }

    /** The pool's own storage contains no node, and what is handed out is among its objects. */
    lemma NodesOutside()
      requires Valid()
      ensures forall n: Node :: n !in Repr
      ensures out <= objects
    {
      forall n | n in out ensures n in objects {
        assert n in FreeBag(model.bands) + multiset(out);
        assert n in multiset(objects);
      }
    }

    /** Free objects number all objects less those handed out. */
    lemma Available()
      requires Valid()
      ensures |FreeBag(model.bands)| == |objects| - |out|
    {
      hide Linked, Balanced;
      assert |FreeBag(model.bands) + multiset(out)| == |multiset(objects)|;
    }

    /** How many objects there are: the size the pool was begun with, and one extension for every band added. */
    lemma ObjectsCounted()
      requires Valid()
      ensures |chain| >= 1 && |objects| == basic + (|chain| - 1) * poolExtendSize
    {
      hide TypeBand.Shows, Showing, Separate, Doubly, Balanced, FreeBag, Capacity;
      CapacityOfBands(model.bands, basic, model.extend);
    }

    lemma BandLinks(k: nat)
      requires Linked() && k < |chain|
      ensures chain[k].freeIdx == |model.bands[k].free| && chain[k].pNext == BandAt(chain, k + 1)
    {
      hide Separate;
    }

    lemma HeadOfChain()
      requires Linked()
      ensures |model.bands| == |chain| && bandHead == BandAt(chain, 0) != null
    {
      hide Separate, Showing, Doubly;
    }

    /** GetAvailableNumberOfTypes: the free indices of all bands, summed in a DWORD. */
    method GetAvailableNumberOfTypes() returns (total: nat)
      requires Valid()
      ensures total == (|objects| - |out|) % DWORD_RANGE
    {
      hide Linked, Balanced, Conserved, FreeBag;
      total := 0;
      HeadOfChain();
      var pHead: TypeBand? := bandHead;
      ghost var k: nat, bands := 0, model.bands;
      assert bands[0..] == bands;
      while pHead != null
        invariant k <= |bands| == |chain| && pHead == BandAt(chain, k) && total < DWORD_RANGE
        invariant (total + |FreeBag(bands[k..])|) % DWORD_RANGE == |FreeBag(bands)| % DWORD_RANGE
        decreases |bands| - k
      {
        BandLinks(k);
        FreeBagFrom(bands, k);
        WrapOnce(total, pHead.freeIdx, |FreeBag(bands[k + 1..])|);
        total := (total + pHead.freeIdx) % DWORD_RANGE;
        pHead := pHead.pNext;
        k := k + 1;
      }
      FreeBagFrom(bands, k);
      Available();
    }

    /** The new band becomes the head of the chain, and Alloc puts it in use. */
    method AddBand(pp: TypeBand, ghost supply: seq<Node>)
      requires Linked() && pp !in Repr && pp.ppDataType !in Repr
      requires |supply| == model.extend && pp.Shows(Band(supply, |supply|)) && pp.pPrev == null
      modifies Repr, pp
      ensures Linked() && Repr == old(Repr) + {pp, pp.ppDataType}
      ensures model == Grown(old(model), supply)
      ensures objects == old(objects) && out == old(out)
    {
      hide TypeBand.Shows, Showing, Doubly, Separate;
      ghost var c, bands := chain, model.bands;
      SeparateCons(pp, c);
      Prepend(pp, bandHead, c);
      bandHead := pp;
      freeBand := pp;
      chain := [pp] + c;
      model := Grown(model, supply);
      Repr := Repr + {pp, pp.ppDataType};
      ShowingCons(pp, Band(supply, |supply|), c, bands);
    }

    /** AlloObject on the band in use. */
    method PopCurrent() returns (r: Node?)
      requires Linked()
      modifies Repr
      ensures Linked() && Repr == old(Repr) && objects == old(objects) && out == old(out)
      ensures var b := old(model.bands[model.cur]);
        if b.free == [] then r == null && model == old(model)
        else r != null && Taken(model, r) == Pop(old(model), old(model.cur))
    {
      hide TypeBand.Shows, Showing, Separate, Doubly;
      r := TakeFrom(freeBand, chain, model.bands, model.cur);
      if r != null {
        model := Pop(model, model.cur).pool;
      }
    }

    /** FreeObject on the band in use. */
    method PushCurrent(pNode: Node) returns (ok: bool)
      requires Linked()
      modifies Repr
      ensures Linked() && Repr == old(Repr) && objects == old(objects) && out == old(out)
      ensures ok == !Full(old(model.bands[model.cur]))
      ensures model == if ok then Push(old(model), old(model.cur), pNode) else old(model)
    {
      hide TypeBand.Shows, Showing, Separate, Doubly;
      ok := GiveTo(freeBand, pNode, chain, model.bands, model.cur);
      if ok {
        model := Push(model, model.cur, pNode);
      }
    }

    /** How the code tells the ends of the chain. */
    lemma AtEnds()
      requires Linked()
      ensures freeBand.pPrev == if model.cur == 0 then null else chain[model.cur - 1]
      ensures freeBand.pNext == if model.cur + 1 == |chain| then null else chain[model.cur + 1]
    {
      assert chain[model.cur] == freeBand;
    }

    method MoveNewer()
      requires Linked() && 0 < model.cur
      modifies this`freeBand, this`model
      ensures Linked() && model == old(model).(cur := old(model).cur - 1)
    {
      hide TypeBand.Shows, Showing, Separate, Doubly;
      AtEnds();
      freeBand := freeBand.pPrev;
      model := model.(cur := model.cur - 1);
    }

    method MoveOlder()
      requires Linked() && model.cur + 1 < |chain|
      modifies this`freeBand, this`model
      ensures Linked() && model == old(model).(cur := old(model).cur + 1)
    {
      hide TypeBand.Shows, Showing, Separate, Doubly;
      AtEnds();
      freeBand := freeBand.pNext;
      model := model.(cur := model.cur + 1);
    }

    method Grow() returns (ghost supply: seq<Node>)
      requires Linked()
      modifies Repr
      ensures Linked() && fresh(Repr - old(Repr)) && old(Repr) <= Repr
      ensures model == Grown(old(model), supply) && |supply| == old(model.extend)
      ensures objects == old(objects) && out == old(out)
      ensures forall x :: x in supply ==> fresh(x)
      ensures forall i, j :: 0 <= i < j < |supply| ==> supply[i] != supply[j]
    {
      hide TypeBand.Shows, Showing, Separate, Doubly;
      var pp := new TypeBand(poolExtendSize);
      supply := pp.ppDataType[..];
      AddBand(pp, supply);
    }

    /** The branches of Alloc: the band in use, else a newer one, else a new one. */
    method TakeOrGrow() returns (r: Node?, ghost supply: seq<Node>)
      requires Linked() && Balanced(model)
      modifies Repr
      ensures Linked() && fresh(Repr - old(Repr)) && old(Repr) <= Repr
      ensures |supply| == if old(MustGrow(model)) then old(model.extend) else 0
      ensures r != null && Taken(model, r) == BandPool.Alloc(old(model), supply)
      ensures forall x :: x in supply ==> fresh(x)
      ensures forall i, j :: 0 <= i < j < |supply| ==> supply[i] != supply[j]
      ensures objects == old(objects) && out == old(out)
    {
      hide TypeBand.Shows, Showing, Separate, Doubly, Balanced, BandPool.Alloc, Pop, Grown;
      supply := [];
      r := PopCurrent();
      if r == null {
        AtEnds();
        if freeBand.pPrev == null {
          supply := Grow();
        } else {
          MoveNewer();
        }
        AllocCases(old(model), supply);
        r := PopCurrent();
      } else {
        AllocCases(old(model), supply);
      }
    }

    /** Alloc: never null. `supply` are the objects of the new band, if one was needed. */
    method Alloc() returns (pn: Node, ghost supply: seq<Node>)
      requires Valid()
      modifies Repr
      ensures Valid() && fresh(Repr - old(Repr)) && old(Repr) <= Repr
      ensures |supply| == if old(MustGrow(model)) then old(model.extend) else 0
      ensures forall x :: x in supply ==> fresh(x)
      ensures Taken(model, pn) == BandPool.Alloc(old(model), supply)
      ensures objects == old(objects) + (set x | x in supply)
      ensures poolExtendSize == old(poolExtendSize) && 0 < poolExtendSize
      ensures |chain| == old(|chain|) + if old(out == objects) then 1 else 0
      ensures out == old(out) + {pn} && pn !in old(out) && pn in objects
    {
      hide TypeBand.Shows, Showing, Separate, Doubly, Balanced, Conserved, BandPool.Alloc;
      pn, supply := TakeOrGrow();
      AllocKeepsInv(old(model), supply, objects, out);
      AllocKeepsSized(old(model), supply, basic);
      AllocPlace(old(model));
      assert supply == [] ==> objects + (set x | x in supply) == objects;
      objects, out := objects + (set x | x in supply), out + {pn};
    }

    /** The branches of Free, when the band in use or the next older one has room. */
    method PutBack(pNode: Node)
      requires Linked() && Balanced(model)
      requires exists i :: model.cur <= i <= model.cur + 1 && i < |model.bands| && !Full(model.bands[i])
      modifies Repr
      ensures Linked() && Repr == old(Repr) && objects == old(objects) && out == old(out)
      ensures model == BandPool.Free(old(model), pNode)
    {
      hide TypeBand.Shows, Showing, Separate, Doubly, Balanced, BandPool.Free, Push, Full;
      FreeCases(model, pNode);
      var ok := PushCurrent(pNode);
      if !ok {
        AtEnds();
        if freeBand.pNext == null {
          return;
        }
        MoveOlder();
        ok := PushCurrent(pNode);
      }
    }

    /** Free: every node handed out is taken back; none is dropped. */
    method Free(pNode: Node)
      requires Valid() && pNode in out
      modifies Repr
      ensures Valid() && Repr == old(Repr)
      ensures model == BandPool.Free(old(model), pNode)
      ensures objects == old(objects) && out == old(out) - {pNode}
      ensures poolExtendSize == old(poolExtendSize) && |chain| == old(|chain|)
    {
      hide TypeBand.Shows, Showing, Separate, Doubly, Conserved, Balanced, BandPool.Free, Push, Full;
      FreeKeepsInv(model, pNode, objects, out);
      FreeKeepsSized(model, pNode, basic);
      PutBack(pNode);
      out := out - {pNode};
    }
  }
}
