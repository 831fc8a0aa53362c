/** The chained hash table of named nodes (nhashtable.h, nstrlist.h), its buckets being overlaid lists in flat
    memory. */
module HashTable {
  import opened Arith
  import opened Bytes
  import opened WordMemory
  import opened ListRuns
  import opened NodePayload
  import opened IntrusiveList

  // ----- The hash function

  /** The i-th character counts i times, from `j` on. */
  function Weighted(s: seq<byte>, j: nat): nat {
    if s == [] then 0 else s[0] * j + Weighted(s[1..], j + 1)
  }

  /** The strings whose whole weighted sum is an `int`. */
  predicate Hashable(s: CString) {
    Weighted(s, 1) < 0x8000_0000
  }

  lemma {:induction false} WeightedAtLeast(s: CString, j: nat)
    requires 0 < j
    ensures Weighted(s, j) >= |s| * j
    ensures |s| >= 2 ==> Weighted(s, j) > |s|
  {
    if s == [] {
    } else {
      assert s[0] >= 1 by { assert s[0] in s; }
      assert s[0] * j >= j;
      WeightedAtLeast(s[1..], j + 1);
      assert |s[1..]| * (j + 1) == |s| * j - j + |s[1..]|;
    }
  }

  /** j + (j + 1) + ... over n terms. */
  function Ramp(n: nat, j: nat): nat {
    if n == 0 then 0 else j + Ramp(n - 1, j + 1)
  }

  lemma {:induction false} RampClosed(n: nat, j: nat)
    ensures 2 * Ramp(n, j) == n * (2 * j + n - 1)
  {
    if n == 0 {
    } else {
      RampClosed(n - 1, j + 1);
      assert n * (2 * j + n - 1) == (n - 1) * (2 * (j + 1) + (n - 1) - 1) + 2 * j;
    }
  }

  lemma {:induction false} WeightedAtMost(s: seq<byte>, j: nat)
    ensures Weighted(s, j) <= 255 * Ramp(|s|, j)
    ensures (forall i :: 0 <= i < |s| ==> s[i] == 255) ==> Weighted(s, j) == 255 * Ramp(|s|, j)
  {
    if s == [] {
    } else {
      WeightedAtMost(s[1..], j + 1);
      assert s[0] * j <= 255 * j;
    }
  }

  /** No string of at most 4103 characters overflows the accumulator. */
  lemma ShortStringsHash(s: CString)
    requires |s| <= 4103
    ensures 2 * Weighted(s, 1) <= 255 * |s| * (|s| + 1) && Hashable(s)
  {
    WeightedAtMost(s, 1);
    RampClosed(|s|, 1);
    var n := |s|;
    assert n * (n + 1) <= 4103 * 4104;
  }

  lemma {:induction false} WeightedConcat(a: seq<byte>, b: seq<byte>, j: nat)
    ensures Weighted(a + b, j) == Weighted(a, j) + Weighted(b, j + |a|)
    decreases |a|
  {
    if a == [] {
      assert a + b == b;
    } else {
      WeightedConcat(a[1..], b, j + 1);
      assert (a + b)[1..] == a[1..] + b;
    }
  }

  /** A character at the end counts as often as the string is then long. */
  lemma WeightedAppend(s: seq<byte>, c: byte)
    ensures Weighted(s + [c], 1) == Weighted(s, 1) + c * (|s| + 1) && Weighted([], 1) == 0
  {
    WeightedConcat(s, [c], 1);
    assert [c][1..] == [];
  }

  /** Every value the loop computes for its k-th character is an `int`: the product, the sum so far, the next factor. */
  ghost predicate StepFitsInt(s: seq<byte>, k: nat)
    requires k < |s|
  {
    s[k] * (k + 1) < 0x8000_0000 && Weighted(s[..k + 1], 1) < 0x8000_0000 && k + 2 < 0x8000_0000
  }

  lemma WeightedCut(s: seq<byte>, k: nat)
    requires k <= |s|
    ensures Weighted(s, 1) == Weighted(s[..k], 1) + Weighted(s[k..], k + 1)
  {
    hide Weighted;
    WeightedConcat(s[..k], s[k..], 1);
    assert s == s[..k] + s[k..];
  }

  lemma WeightedFrom(s: seq<byte>, k: nat)
    requires k < |s|
    ensures Weighted(s[k..], k + 1) == s[k] * (k + 1) + Weighted(s[k + 1..], k + 2)
  {
    var t := s[k..];
    assert t[0] == s[k] && t[1..] == s[k + 1..];
  }

  lemma WeightedUnfolds(s: seq<byte>, k: nat)
    requires k < |s|
    ensures Weighted(s[k..], k + 1) == s[k] * (k + 1) + Weighted(s[k + 1..], k + 2)
    ensures Weighted(s, 1) == Weighted(s[..k + 1], 1) + Weighted(s[k + 1..], k + 2)
    ensures 0 <= s[k] * (k + 1) <= Weighted(s[..k + 1], 1)
  {
    hide Weighted;
    WeightedFrom(s, k);
    WeightedCut(s, k);
    WeightedCut(s, k + 1);
  }

  /** The computation overflows nowhere if and only if the whole sum is an `int`. */
  lemma NoOverflowExactly(s: CString)
    ensures (forall k: nat :: k < |s| ==> StepFitsInt(s, k)) <==> Hashable(s)
  {
    WeightedAtLeast(s, 1);
    if Hashable(s) {
      forall k: nat | k < |s| ensures StepFitsInt(s, k) { WeightedUnfolds(s, k); }
    } else {
      assert s[..|s| - 1 + 1] == s;
      assert !StepFitsInt(s, |s| - 1);
    }
  }

  /** The bound is tight: at every greater length some string makes the accumulator overflow. */
  lemma LongStringsMayOverflow(n: nat)
    requires 4104 <= n
    ensures exists s: CString, k: nat :: |s| == n && k < n && !StepFitsInt(s, k)
  {
    var s: CString := seq(n, _ => 255);
    WeightedAtMost(s, 1);
    RampClosed(n, 1);
    assert n * (n + 1) >= 4104 * 4105;
    NoOverflowExactly(s);
  }

  // ----- Beyond the bound: two's complement wrap-around

  function Wrap32(x: int): int32 {
    ((x + 0x8000_0000) % 0x1_0000_0000 - 0x8000_0000) as int32
  }

  lemma WrapCongruent(x: int, y: int, q: int)
    requires x == y + q * 0x1_0000_0000
    ensures Wrap32(x) == Wrap32(y)
  {
    var z := y + 0x8000_0000;
    var d, r := z / 0x1_0000_0000, z % 0x1_0000_0000;
    DivModUnique(x + 0x8000_0000, 0x1_0000_0000, d + q, r);
  }

  lemma WrapSum(a: int, b: int)
    ensures Wrap32(Wrap32(a) as int + Wrap32(b) as int) == Wrap32(a + b)
  {
    var q := (a + 0x8000_0000) / 0x1_0000_0000 + (b + 0x8000_0000) / 0x1_0000_0000;
    WrapCongruent(Wrap32(a) as int + Wrap32(b) as int, a + b, -q);
  }

  lemma WrapProduct(c: int, j: int)
    ensures Wrap32(c * (Wrap32(j) as int)) == Wrap32(c * j)
  {
    var q := (j + 0x8000_0000) / 0x1_0000_0000;
    assert Wrap32(j) as int == j - q * 0x1_0000_0000;
    assert c * (j - q * 0x1_0000_0000) == c * j + (-(c * q)) * 0x1_0000_0000;
    WrapCongruent(c * (Wrap32(j) as int), c * j, -(c * q));
  }

  /** The remainder of C++, which takes the sign of the dividend. */
  function Remainder(a: int, b: nat): int
    requires 0 < b
  {
    if a < 0 then -((-a) % b) else a % b
  }

  /** The index `hash` comes to for any string whatever. */
  function Index(s: seq<byte>, size: nat): int
    requires 0 < size
  {
    Remainder(Wrap32(Weighted(s, 1)) as int, size)
  }

  predicate InTable(s: seq<byte>, size: nat)
    requires 0 < size
  {
    0 <= Index(s, size) < size
  }

  lemma WrapIsLow(x: nat)
    ensures var low := x % 0x1_0000_0000; Wrap32(x) as int == if low < 0x8000_0000 then low else low - 0x1_0000_0000
    ensures x < 0x8000_0000 ==> Wrap32(x) as int == x
  {
  }

  /** The index lies in the table if and only if the sum modulo 2^32 is not negative as an `int`, or the table's size
      divides its magnitude. Without overflow it is the plain remainder. */
  lemma InTableExactly(s: seq<byte>, size: nat)
    requires 0 < size
    ensures var low := Weighted(s, 1) % 0x1_0000_0000;
      InTable(s, size) <==> low < 0x8000_0000 || (0x1_0000_0000 - low) % size == 0
    ensures -(size as int) < Index(s, size) < size
    ensures var low := Weighted(s, 1) % 0x1_0000_0000;
      Index(s, size) == if low < 0x8000_0000 then low % size else -((0x1_0000_0000 - low) % size)
    ensures Weighted(s, 1) < 0x8000_0000 ==> InTable(s, size) && Index(s, size) == Weighted(s, 1) % size
  {
    WrapIsLow(Weighted(s, 1));
  }

  /** A string that sends the access in front of the table. */
  lemma IndexOutsideTable()
    ensures exists s: CString :: |s| == 4104 && Index(s, 1000) == -996
  {
    var s: CString := seq(4104, _ => 255);
    WeightedAtMost(s, 1);
    RampClosed(4104, 1);
    assert Weighted(s, 1) == 2147982300;
    assert Wrap32(2147982300) as int == -2146984996;
  }

  lemma WrapStart(s: seq<byte>)
    ensures Wrap32(Weighted(s, 1) - Weighted(s[0..], 1)) == 0 && Wrap32(1) == 1
  {
    assert s[0..] == s;
  }

  lemma WrapNext(k: nat)
    ensures Wrap32(Wrap32(k) as int + 1) == Wrap32(k + 1)
  {
    WrapSum(k, 1);
  }

  lemma WrapEnd()
    ensures forall j: nat :: Weighted([], j) == 0
  {
  }

  /** `hash`, for every string: the loop's arithmetic wraps, and the division truncates. */
  method Hash(str: CString, htableSize: int32) returns (index: int32)
    requires 0 < htableSize
    ensures index as int == Index(str, htableSize as nat)
  {
    hide Weighted, Wrap32;
    var i: int32, j: int32 := 0, 1;
    var k := 0;
    WrapStart(str);
    while k < |str|
      invariant k <= |str| && j == Wrap32(k + 1)
      invariant i == Wrap32(Weighted(str, 1) - Weighted(str[k..], k + 1))
    {
      WeightedUnfolds(str, k);
      var c := str[k];
      WrapProduct(c, k + 1);
      WrapSum(Weighted(str, 1) - Weighted(str[k..], k + 1), c * (k + 1));
      i := Wrap32(i as int + Wrap32(c * (j as int)) as int);
      WrapNext(k + 1);
      j := Wrap32(j as int + 1);
      k := k + 1;
    }
    assert str[k..] == [];
    WrapEnd();
    index := if i < 0 then ((-((-(i as int)) % (htableSize as int))) as int32) else i % htableSize;
  }

  // ----- The table

  /** nStrList::Find over a sequence: the first node carrying the name, 0 if there is none. */
  function FirstNamed(nodes: seq<nat>, names: map<nat, CString>, str: CString): nat {
    if nodes == [] then 0
    else if nodes[0] in names && names[nodes[0]] == str then nodes[0]
    else FirstNamed(nodes[1..], names, str)
  }

  /** The nodes that hash to bucket b. */
  function Bucket(nodes: seq<nat>, names: map<nat, CString>, size: nat, b: int): seq<nat>
    requires 0 < size
  {
    if nodes == [] then []
    else
      var rest := Bucket(nodes[1..], names, size, b);
      if nodes[0] in names && Index(names[nodes[0]], size) == b then [nodes[0]] + rest else rest
  }

  /** Searching one bucket finds what searching everything would. */
  lemma {:induction false} BucketSearchIsEnough(nodes: seq<nat>, names: map<nat, CString>, size: nat, str: CString)
    requires 0 < size
    ensures FirstNamed(Bucket(nodes, names, size, Index(str, size)), names, str) == FirstNamed(nodes, names, str)
  {
    if nodes == [] {
    } else {
      BucketSearchIsEnough(nodes[1..], names, size, str);
      var rest := Bucket(nodes[1..], names, size, Index(str, size));
      assert ([nodes[0]] + rest)[1..] == rest;
    }
  }

  ghost predicate NoneBefore(nodes: seq<nat>, names: map<nat, CString>, str: CString, i: nat) {
    forall j :: 0 <= j < i && j < |nodes| && nodes[j] in names ==> names[nodes[j]] != str
  }

  /** A linear search gives the earliest match, or 0 exactly when no name matches. */
  lemma {:induction false} FirstNamedMeans(nodes: seq<nat>, names: map<nat, CString>, str: CString)
    requires forall i :: 0 <= i < |nodes| ==> nodes[i] != 0 && nodes[i] in names
    ensures var r := FirstNamed(nodes, names, str);
      if r == 0 then forall i :: 0 <= i < |nodes| ==> names[nodes[i]] != str
      else exists i :: 0 <= i < |nodes| && nodes[i] == r && names[r] == str && NoneBefore(nodes, names, str, i)
  {
    if nodes != [] && names[nodes[0]] != str {
      var t, r := nodes[1..], FirstNamed(nodes, names, str);
      FirstNamedMeans(t, names, str);
      if r == 0 {
        forall i | 0 <= i < |nodes| ensures names[nodes[i]] != str { if 0 < i { assert nodes[i] == t[i - 1]; } }
      } else {
        var i :| 0 <= i < |t| && t[i] == r && names[r] == str && NoneBefore(t, names, str, i);
        assert nodes[i + 1] == r;
        forall j | 0 <= j < i + 1 ensures names[nodes[j]] != str { if 0 < j { assert nodes[j] == t[j - 1]; } }
        assert NoneBefore(nodes, names, str, i + 1);
      }
    }
  }

  /** The address of bucket b: the buckets are consecutive three-word lists. */
  function BucketAt(base: nat, b: nat): nat {
    base + 3 * b
  }

  /** The lists are exactly the buckets, and each holds exactly the added nodes that hash to it, newest first. */
  ghost predicate Chained(w: World, base: nat, size: nat, names: map<nat, CString>, added: seq<nat>)
    requires 0 < size
  {
    && names.Keys == w.nodes
    && (forall l :: l in w.lists ==> exists b: nat :: b < size && l == BucketAt(base, b))
    && (forall b: nat :: b < size ==> BucketAt(base, b) in w.lists)
    && (forall b: nat :: b < size ==> w.lists[BucketAt(base, b)] == Bucket(added, names, size, b))
    && (forall i :: 0 <= i < |added| ==> added[i] in names && InTable(names[added[i]], size))
  }

  /** Exactly the first `count` buckets exist, all empty. */
  ghost predicate AllEmpty(w: World, base: nat, count: nat) {
    && w.nodes == {}
    && (forall l :: l in w.lists ==> exists b: nat :: b < count && l == BucketAt(base, b))
    && (forall b: nat :: b < count ==> BucketAt(base, b) in w.lists && w.lists[BucketAt(base, b)] == [])
  }

  lemma BucketRoom(w: World, base: nat, b: nat, room: nat)
    requires AllEmpty(w, base, b) && 0 < base && base + 3 * (b + 1) <= room
    ensures RoomFor(room, w, BucketAt(base, b))
    ensures AllEmpty(w.(lists := w.lists[BucketAt(base, b) := []]), base, b + 1)
  {
    assert forall c: nat :: c < b ==> BucketAt(base, c) != BucketAt(base, b);
  }

  lemma ChainedAdd(w: World, base: nat, size: nat, names: map<nat, CString>, added: seq<nat>, n: nat)
    requires 0 < size && Chained(w, base, size, names, added) && n in w.nodes && InTable(names[n], size)
    ensures var l := BucketAt(base, Index(names[n], size));
      l in w.lists && Chained(w.(lists := w.lists[l := [n] + w.lists[l]]), base, size, names, [n] + added)
  {
    var l := BucketAt(base, Index(names[n], size));
    var w' := w.(lists := w.lists[l := [n] + w.lists[l]]);
    assert ([n] + added)[1..] == added;
    forall b: nat | b < size ensures w'.lists[BucketAt(base, b)] == Bucket([n] + added, names, size, b) {
      assert BucketAt(base, b) == l <==> b == Index(names[n], size);
    }
  }

  /** Naming a new node moves no old one. */
  lemma {:induction false} BucketAgrees(nodes: seq<nat>, names: map<nat, CString>, names': map<nat, CString>,
                                      size: nat, b: nat)
    requires 0 < size
    requires forall i :: 0 <= i < |nodes| ==>
      nodes[i] in names && nodes[i] in names' && names'[nodes[i]] == names[nodes[i]]
    ensures Bucket(nodes, names', size, b) == Bucket(nodes, names, size, b)
  {
    if nodes == [] {
    } else {
      forall i | 0 <= i < |nodes[1..]| ensures nodes[1..][i] == nodes[i + 1] {}
      BucketAgrees(nodes[1..], names, names', size, b);
    }
  }

  lemma ChainedNewNode(w: World, base: nat, size: nat, names: map<nat, CString>, added: seq<nat>, n: nat, name: CString)
    requires 0 < size && Chained(w, base, size, names, added) && n !in w.nodes
    ensures Chained(w.(nodes := w.nodes + {n}), base, size, names[n := name], added)
  {
    forall b: nat | b < size ensures w.lists[BucketAt(base, b)] == Bucket(added, names[n := name], size, b) {
      BucketAgrees(added, names, names[n := name], size, b);
    }
  }

  class Table {
    const memory: Memory
    const base: nat
    const htableSize: int32
    /** The name each nStrNode carries. */
    var names: map<nat, CString>
    /** Every node ever added, newest first. */
    ghost var added: seq<nat>

    ghost predicate Valid()
      reads this, memory, memory.words
    {
      0 < htableSize && memory.Valid() && Chained(memory.world, base, htableSize as nat, names, added)
    }

    /** nHashTable::nHashTable: an array of empty lists at `base`, inside a memory of `room` words. */
    constructor (htableSize: int32, base: nat, room: nat)
      requires 0 < htableSize && 0 < base && base + 3 * (htableSize as nat) <= room
      ensures Valid() && added == [] && memory.world.nodes == {}
      ensures fresh(memory) && fresh(memory.words) && memory.words.Length == room
      ensures this.htableSize == htableSize && this.base == base
    {
      this.htableSize, this.base := htableSize, base;
      names, added := map[], [];
      var mem := new Memory(room);
      memory := mem;
      new;
      var b: nat := 0;
      while b < htableSize as nat
        invariant b <= htableSize as nat && memory.Valid() && names == map[] && added == []
        invariant fresh(memory) && fresh(memory.words) && memory.words.Length == room
        invariant AllEmpty(memory.world, base, b)
      {
        hide Memory.Valid, AllEmpty, BucketAt, RoomFor;
        BucketRoom(memory.world, base, b, room);
        memory.NewList(BucketAt(base, b));
        b := b + 1;
      }
      hide Memory.Valid;
    }

    /** nStrNode::nStrNode(str, ptr) at address n. */
    method NewStrNode(n: nat, name: CString, ptr: nat)
      requires Valid() && RoomFor(memory.words.Length, memory.world, n)
      modifies this, memory, memory.words
      ensures Valid() && added == old(added) && names == old(names)[n := name]
      ensures memory.world == old(memory.world).(nodes := old(memory.world.nodes) + {n})
      ensures At(memory.words[..], n + 2) == ptr
      ensures PtrsKept(old(memory.words[..]), memory.words[..], old(memory.world.nodes))
    {
      assert n !in memory.world.nodes by {
        assert n in memory.world.nodes ==> n in Blocks(memory.world);
        assert !Apart(n, n);
      }
      ChainedNewNode(memory.world, base, htableSize as nat, names, added, n, name);
      memory.NewNode(n, ptr);
      names := names[n := name];
    }

    /** nHashTable::Add. The node must carry a name (GetName returns null for the empty one), be unlinked, and hash into
        the table: for any other name the code writes outside its array. */
    method Add(n: nat)
      requires Valid() && n in memory.world.nodes && names[n] != [] && InTable(names[n], htableSize as nat)
      requires At(memory.words[..], n) == 0
      modifies this, memory, memory.words
      ensures Valid() && added == [n] + old(added) && names == old(names)
      ensures memory.world.nodes == old(memory.world.nodes)
      ensures PtrsKept(old(memory.words[..]), memory.words[..], old(memory.world.nodes))
    {
      hide Inv, Link, Bucket, Index;
      ChainedAdd(memory.world, base, htableSize as nat, names, added, n);
      var index := Hash(names[n], htableSize);
      memory.AddHead(base + 3 * (index as nat), n);
      added := [n] + added;
    }

    /** nHashTable::Find: the same node as a newest-first search over everything ever added. For a name that does not
        hash into the table the code reads outside its array. */
    method Find(str: CString) returns (n: nat)
      requires Valid() && InTable(str, htableSize as nat)
      ensures n == FirstNamed(added, names, str)
      ensures n != 0 <==> exists i :: 0 <= i < |added| && names[added[i]] == str
    {
      hide Index;
      var index := Hash(str, htableSize);
      var l := base + 3 * (index as nat);
      assert l == BucketAt(base, index as nat) && l in memory.world.lists;
      ghost var s, i := memory.world.lists[l], 0;
      BucketSearchIsEnough(added, names, htableSize as nat, str);
      forall j | 0 <= j < |added| ensures added[j] != 0 && added[j] in names {
        assert added[j] in Blocks(memory.world);
      }
      FirstNamedMeans(added, names, str);
      assert forall j :: 0 <= j < |s| ==> s[j] in Blocks(memory.world);
      n := memory.GetHead(l);
      while n != 0
        invariant 0 <= i <= |s| && n == if i < |s| then s[i] else 0
        invariant FirstNamed(s[i..], names, str) == FirstNamed(added, names, str)
        decreases |s| - i
      {
        assert s[i..][1..] == s[i + 1..];
        if names[n] == str {
          return;
        }
        n := memory.GetSucc(n, l, i);
        i := i + 1;
      }
    }
  }
}
