/** The byte format of ByteBuffer.h: wire types, values, the order std::map keeps, and pure encode/decode functions. */
module Wire {
  import opened Arith
  import opened Bytes

  // ----- Types and values

  datatype Width = W8 | W16 | W32 | W64 {
    function Size(): nat {
      match this case W8 => 1 case W16 => 2 case W32 => 4 case W64 => 8
    }

    function Range(): nat {
      match this case W8 => 0x100 case W16 => 0x1_0000 case W32 => 0x1_0000_0000 case W64 => 0x1_0000_0000_0000_0000
    }
  }

  /** The C++ types with stream operators. `Map(Pair(K, V))` is std::map<K, V>; `Pair` is what the map operators
      send for one entry, first the key and then the mapped value. */
  datatype Ty =
    | Unsigned(width: Width)
    | Signed(width: Width)
    | Boolean
    | Str
    | Pair(first: Ty, second: Ty)
    | Vector(elem: Ty)
    | List(elem: Ty)
    | Map(elem: Ty)

  datatype Val =
    | Num(n: int)
    | Flag(b: bool)
    | Text(chars: seq<byte>)
    | Two(first: Val, second: Val)
    | Items(vals: seq<Val>)

  /** The key of a map entry. */
  function Key(v: Val): Val {
    if v.Two? then v.first else v
  }

  // ----- The order of keys (operator< on integers, bools, strings, containers and pairs)

  predicate TextBefore(s: seq<byte>, t: seq<byte>) {
    if t == [] then false
    else if s == [] then true
    else s[0] < t[0] || (s[0] == t[0] && TextBefore(s[1..], t[1..]))
  }

  function Rank(v: Val): nat {
    match v case Num(_) => 0 case Flag(_) => 1 case Text(_) => 2 case Two(_, _) => 3 case Items(_) => 4
  }

  predicate Before(a: Val, b: Val)
    decreases a, 0
  {
    match (a, b)
    case (Num(n), Num(k)) => n < k
    case (Flag(p), Flag(q)) => !p && q
    case (Text(s), Text(t)) => TextBefore(s, t)
    case (Two(x, y), Two(u, v)) => Before(x, u) || (x == u && Before(y, v))
    case (Items(xs), Items(ys)) => ItemsBefore(xs, ys)
    case _ => Rank(a) < Rank(b)
  }

  /** Lexicographic comparison. */
  predicate ItemsBefore(xs: seq<Val>, ys: seq<Val>)
    decreases xs, 0
  {
    if ys == [] then false
    else if xs == [] then true
    else Before(xs[0], ys[0]) || (xs[0] == ys[0] && ItemsBefore(xs[1..], ys[1..]))
  }

  lemma {:induction false} TextOrder(s: seq<byte>, t: seq<byte>, u: seq<byte>)
    ensures !TextBefore(s, s)
    ensures s != t ==> TextBefore(s, t) || TextBefore(t, s)
    ensures TextBefore(s, t) && TextBefore(t, u) ==> TextBefore(s, u)
    decreases |s|
  {
    if s == [] {
    } else if t == [] {
      TextOrder(s[1..], [], []);
    } else {
      if s[0] == t[0] && s[1..] == t[1..] { assert s == [s[0]] + s[1..] && t == [t[0]] + t[1..]; }
      TextOrder(s[1..], t[1..], if u == [] then [] else u[1..]);
    }
  }

  /** Before is a strict total order on values. */
  lemma {:induction false} Irreflexive(a: Val)
    ensures !Before(a, a)
    decreases a, 0
  {
    match a
    case Text(s) => TextOrder(s, s, s);
    case Two(x, y) => Irreflexive(x); Irreflexive(y);
    case Items(xs) => ItemsIrreflexive(xs);
    case _ =>
  }

  lemma {:induction false} ItemsIrreflexive(xs: seq<Val>)
    ensures !ItemsBefore(xs, xs)
    decreases xs, 0
  {
    if xs == [] {
    } else {
      Irreflexive(xs[0]);
      ItemsIrreflexive(xs[1..]);
    }
  }

  lemma {:induction false} Trichotomy(a: Val, b: Val)
    ensures a == b || Before(a, b) || Before(b, a)
    decreases a, 0
  {
    match (a, b)
    case (Text(s), Text(t)) => TextOrder(s, t, t);
    case (Two(x, y), Two(u, v)) => Trichotomy(x, u); Trichotomy(y, v);
    case (Items(xs), Items(ys)) => ItemsTrichotomy(xs, ys);
    case _ =>
  }

  lemma {:induction false} ItemsTrichotomy(xs: seq<Val>, ys: seq<Val>)
    ensures xs == ys || ItemsBefore(xs, ys) || ItemsBefore(ys, xs)
    decreases xs, 0
  {
    if xs == [] || ys == [] {
    } else {
      Trichotomy(xs[0], ys[0]);
      ItemsTrichotomy(xs[1..], ys[1..]);
      assert xs == [xs[0]] + xs[1..] && ys == [ys[0]] + ys[1..];
    }
  }

  lemma {:induction false} Transitive(a: Val, b: Val, c: Val)
    requires Before(a, b) && Before(b, c)
    ensures Before(a, c)
    decreases a, 0
  {
    match (a, b, c)
    case (Text(s), Text(t), Text(u)) => TextOrder(s, t, u);
    case (Two(x, y), Two(u, v), Two(p, q)) =>
      if Before(x, u) && Before(u, p) { Transitive(x, u, p); }
      if Before(y, v) && Before(v, q) { Transitive(y, v, q); }
    case (Items(xs), Items(ys), Items(zs)) => ItemsTransitive(xs, ys, zs);
    case _ =>
  }

  lemma {:induction false} ItemsTransitive(xs: seq<Val>, ys: seq<Val>, zs: seq<Val>)
    requires ItemsBefore(xs, ys) && ItemsBefore(ys, zs)
    ensures ItemsBefore(xs, zs)
    decreases xs, 0
  {
    if xs == [] {
    } else {
      if Before(xs[0], ys[0]) && Before(ys[0], zs[0]) { Transitive(xs[0], ys[0], zs[0]); }
      if ItemsBefore(xs[1..], ys[1..]) && ItemsBefore(ys[1..], zs[1..]) { ItemsTransitive(xs[1..], ys[1..], zs[1..]); }
    }
  }

  // ----- Maps: sequences sorted by key

  ghost predicate Sorted(es: seq<Val>) {
    forall i, j :: 0 <= i < j < |es| ==> Before(Key(es[i]), Key(es[j]))
  }

  /** std::map::insert: an entry whose key is already there is dropped. */
  function Insert(es: seq<Val>, e: Val): seq<Val> {
    if es == [] then [e]
    else if Before(Key(e), Key(es[0])) then [e] + es
    else if Key(e) == Key(es[0]) then es
    else [es[0]] + Insert(es[1..], e)
  }

  /** Entries inserted one after another into an empty map. */
  function Inserted(es: seq<Val>): seq<Val> {
    if es == [] then [] else Insert(Inserted(es[..|es| - 1]), es[|es| - 1])
  }

  lemma {:induction false} InsertMembers(es: seq<Val>, e: Val)
    ensures |es| <= |Insert(es, e)| <= |es| + 1
    ensures forall x :: x in Insert(es, e) ==> x in es || x == e
    ensures forall x :: x in es ==> x in Insert(es, e)
  {
    if es == [] {
    } else {
      InsertMembers(es[1..], e);
      assert es == [es[0]] + es[1..];
    }
  }

  lemma {:induction false} InsertKeepsSorted(es: seq<Val>, e: Val)
    requires Sorted(es)
    ensures Sorted(Insert(es, e))
  {
    if es == [] {
    } else {
      var k, r := Key(e), Insert(es, e);
      Trichotomy(k, Key(es[0]));
      if Before(k, Key(es[0])) {
        forall j | 0 <= j < |es| ensures Before(k, Key(es[j])) {
          if 0 < j { Transitive(k, Key(es[0]), Key(es[j])); }
        }
      } else if k != Key(es[0]) {
        var t := Insert(es[1..], e);
        assert Sorted(es[1..]);
        InsertKeepsSorted(es[1..], e);
        InsertMembers(es[1..], e);
        forall j | 0 <= j < |t| ensures Before(Key(es[0]), Key(t[j])) {
          assert t[j] in t;
          if t[j] in es[1..] { var i :| 0 <= i < |es[1..]| && es[1..][i] == t[j]; assert es[i + 1] == t[j]; }
        }
      }
    }
  }

  /** An entry greater than all others goes to the end. */
  lemma {:induction false} InsertLast(es: seq<Val>, e: Val)
    requires forall i :: 0 <= i < |es| ==> Before(Key(es[i]), Key(e))
    ensures Insert(es, e) == es + [e]
  {
    if es == [] {
    } else {
      Irreflexive(Key(e));
      if Before(Key(e), Key(es[0])) { Transitive(Key(e), Key(es[0]), Key(e)); }
      forall i | 0 <= i < |es[1..]| ensures Before(Key(es[1..][i]), Key(e)) { assert es[1..][i] == es[i + 1]; }
      InsertLast(es[1..], e);
      assert es == [es[0]] + es[1..];
    }
  }

  /** Re-inserting a sorted map's entries in order rebuilds the map. */
  lemma {:induction false} SortedRebuilt(es: seq<Val>)
    requires Sorted(es)
    ensures Inserted(es) == es
  {
    if es == [] {
    } else {
      var init := es[..|es| - 1];
      SortedRebuilt(init);
      InsertLast(init, es[|es| - 1]);
      assert es == init + [es[|es| - 1]];
    }
  }

  lemma {:induction false} InsertedIsSorted(es: seq<Val>)
    ensures Sorted(Inserted(es)) && |Inserted(es)| <= |es|
    ensures forall x :: x in Inserted(es) ==> x in es
  {
    if es == [] {
    } else {
      InsertedIsSorted(es[..|es| - 1]);
      InsertKeepsSorted(Inserted(es[..|es| - 1]), es[|es| - 1]);
      InsertMembers(Inserted(es[..|es| - 1]), es[|es| - 1]);
    }
  }

  // ----- Scalars on the wire: little endian, two's complement

  function Pow256(n: nat): (p: nat)
    ensures 0 < p
  {
    if n == 0 then 1 else 256 * Pow256(n - 1)
  }

  function LittleEndian(x: nat, n: nat): (bs: seq<byte>)
    ensures |bs| == n
  {
    if n == 0 then [] else [x % 256] + LittleEndian(x / 256, n - 1)
  }

  function FromLittleEndian(bs: seq<byte>): nat {
    if bs == [] then 0 else bs[0] + 256 * FromLittleEndian(bs[1..])
  }

  lemma {:induction false} LittleEndianInverse(x: nat, n: nat)
    ensures FromLittleEndian(LittleEndian(x, n)) == x % Pow256(n)
  {
    if n == 0 {
    } else {
      LittleEndianInverse(x / 256, n - 1);
      assert LittleEndian(x, n)[1..] == LittleEndian(x / 256, n - 1);
      ModOfMultiple(x, 256, Pow256(n - 1));
    }
  }

  lemma {:induction false} FromLittleEndianBelow(bs: seq<byte>)
    ensures FromLittleEndian(bs) < Pow256(|bs|)
  {
    if bs == [] {
    } else {
      FromLittleEndianBelow(bs[1..]);
    }
  }

  lemma RangeIsPow256(w: Width)
    ensures w.Range() == Pow256(w.Size())
  {
    assert Pow256(1) == 256 && Pow256(2) == 0x1_0000;
    assert Pow256(4) == 0x1_0000_0000 by { assert Pow256(3) == 0x100_0000; }
    assert Pow256(8) == 0x1_0000_0000_0000_0000 by {
      assert Pow256(5) == 0x100_0000_0000 && Pow256(6) == 0x1_0000_0000_0000 && Pow256(7) == 0x100_0000_0000_0000;
    }
  }

  /** The value a signed type gives to an unsigned bit pattern. */
  function ToSigned(u: nat, w: Width): int {
    if 2 * u < w.Range() then u else u - w.Range()
  }

  // ----- Which values a C++ variable can hold, and which survive the wire

  ghost predicate HasType(t: Ty, v: Val)
    decreases t
  {
    match t
    case Unsigned(w) => v.Num? && 0 <= v.n < w.Range()
    case Signed(w) => v.Num? && -(w.Range() as int) <= 2 * v.n < w.Range()
    case Boolean => v.Flag?
    case Str => v.Text?
    case Pair(a, b) => v.Two? && HasType(a, v.first) && HasType(b, v.second)
    case Vector(e) => v.Items? && forall i :: 0 <= i < |v.vals| ==> HasType(e, v.vals[i])
    case List(e) => v.Items? && forall i :: 0 <= i < |v.vals| ==> HasType(e, v.vals[i])
    case Map(e) => v.Items? && Sorted(v.vals) && forall i :: 0 <= i < |v.vals| ==> HasType(e, v.vals[i])
  }

  const MAX_ARR_SIZE := 1024

  /** Strings without NUL whose length plus terminator fits the 32-bit header; containers within the reader's limit. */
  ghost predicate Sendable(v: Val) {
    match v
    case Num(_) => true
    case Flag(_) => true
    case Text(s) => 0 !in s && |s| + 1 < 0x1_0000_0000
    case Two(x, y) => Sendable(x) && Sendable(y)
    case Items(vs) => |vs| <= MAX_ARR_SIZE && forall i :: 0 <= i < |vs| ==> Sendable(vs[i])
  }

  // ----- Writing

  function Header(n: nat): (bs: seq<byte>)
    ensures |bs| == 4
  {
    LittleEndian(n % 0x1_0000_0000, 4)
  }

  function Encode(t: Ty, v: Val): seq<byte>
    requires HasType(t, v)
    decreases t, 0
  {
    match t
    case Unsigned(w) => LittleEndian(v.n, w.Size())
    case Signed(w) => LittleEndian(v.n % w.Range(), w.Size())
    case Boolean => [if v.b then 1 else 0]
    case Str => Header(|v.chars| + 1) + v.chars + [0]
    case Pair(a, b) => Encode(a, v.first) + Encode(b, v.second)
    case Vector(e) => Header(|v.vals|) + EncodeAll(e, v.vals)
    case List(e) => Header(|v.vals|) + EncodeAll(e, v.vals)
    case Map(e) => Header(|v.vals|) + EncodeAll(e, v.vals)
  }

  function EncodeAll(t: Ty, vs: seq<Val>): seq<byte>
    requires forall i :: 0 <= i < |vs| ==> HasType(t, vs[i])
    decreases t, 1, |vs|
  {
    if vs == [] then [] else Encode(t, vs[0]) + EncodeAll(t, vs[1..])
  }

  // ----- Reading, total on arbitrary bytes

  /** read<T>: past the end the value is 0. The caller advances the cursor by the size either way. */
  function ReadScalar(bs: seq<byte>, pos: nat, size: nat): nat {
    if pos + size > |bs| then 0 else FromLittleEndian(bs[pos..pos + size])
  }

  /** The characters and end position of at most `len` reads that stop at a NUL. */
  function ReadChars(bs: seq<byte>, pos: nat, len: nat): (seq<byte>, nat)
    decreases len
  {
    if len == 0 then ([], pos)
    else
      var c: byte := if pos < |bs| then bs[pos] else 0;
      if c == 0 then ([], pos + 1)
      else var (rest, end) := ReadChars(bs, pos + 1, len - 1); ([c] + rest, end)
  }

  function Decode(t: Ty, bs: seq<byte>, pos: nat): (Val, nat)
    decreases t, 0
  {
    match t
    case Unsigned(w) => (Num(ReadScalar(bs, pos, w.Size())), pos + w.Size())
    case Signed(w) => (Num(ToSigned(ReadScalar(bs, pos, w.Size()), w)), pos + w.Size())
    case Boolean => (Flag(ToSigned(ReadScalar(bs, pos, 1), W8) > 0), pos + 1)
    case Str => var (s, end) := ReadChars(bs, pos + 4, ReadScalar(bs, pos, 4)); (Text(s), end)
    case Pair(a, b) =>
      var (x, mid) := Decode(a, bs, pos);
      var (y, end) := Decode(b, bs, mid);
      (Two(x, y), end)
    case Vector(e) => var (vs, end) := DecodeItems(e, bs, pos); (Items(vs), end)
    case List(e) => var (vs, end) := DecodeItems(e, bs, pos); (Items(vs), end)
    case Map(e) => var (vs, end) := DecodeItems(e, bs, pos); (Items(Inserted(vs)), end)
  }

  /** A container: nothing is read after a header above the limit. */
  function DecodeItems(t: Ty, bs: seq<byte>, pos: nat): (seq<Val>, nat)
    decreases t, 2
  {
    var n := ReadScalar(bs, pos, 4);
    if n > MAX_ARR_SIZE then ([], pos + 4) else DecodeAll(t, bs, pos + 4, n)
  }

  function DecodeAll(t: Ty, bs: seq<byte>, pos: nat, n: nat): (seq<Val>, nat)
    decreases t, 1, n
  {
    if n == 0 then ([], pos)
    else
      var (v, mid) := Decode(t, bs, pos);
      var (vs, end) := DecodeAll(t, bs, mid, n - 1);
      ([v] + vs, end)
  }

  // ----- Round trip

  /** The bytes of `part` stand at `pos`. */
  ghost predicate Holds(bs: seq<byte>, pos: nat, part: seq<byte>) {
    pos + |part| <= |bs| && bs[pos..pos + |part|] == part
  }

  lemma HoldsSplit(bs: seq<byte>, pos: nat, a: seq<byte>, b: seq<byte>)
    requires Holds(bs, pos, a + b)
    ensures Holds(bs, pos, a) && Holds(bs, pos + |a|, b)
  {
    assert bs[pos..pos + |a|] == bs[pos..pos + |a + b|][..|a|];
    assert bs[pos + |a|..pos + |a| + |b|] == bs[pos..pos + |a + b|][|a|..];
  }

  lemma ScalarRoundTrip(bs: seq<byte>, pos: nat, x: nat, w: Width)
    requires x < w.Range() && Holds(bs, pos, LittleEndian(x, w.Size()))
    ensures ReadScalar(bs, pos, w.Size()) == x
  {
    hide LittleEndian, FromLittleEndian, Pow256;
    LittleEndianInverse(x, w.Size());
    RangeIsPow256(w);
    assert x % w.Range() == x;
  }

  lemma SignedRoundTrip(bs: seq<byte>, pos: nat, n: int, w: Width)
    requires -(w.Range() as int) <= 2 * n < w.Range() && Holds(bs, pos, LittleEndian(n % w.Range(), w.Size()))
    ensures ToSigned(ReadScalar(bs, pos, w.Size()), w) == n
  {
    hide LittleEndian, ReadScalar, Holds;
    ScalarRoundTrip(bs, pos, n % w.Range(), w);
    DivModUnique(n, w.Range(), if n < 0 then -1 else 0, if n < 0 then n + w.Range() else n);
  }

  lemma BooleanRoundTrip(bs: seq<byte>, pos: nat, b: bool)
    requires Holds(bs, pos, [if b then 1 else 0])
    ensures ToSigned(ReadScalar(bs, pos, 1), W8) > 0 <==> b
  {
    assert LittleEndian(if b then 1 else 0, 1) == [if b then 1 else 0];
    ScalarRoundTrip(bs, pos, if b then 1 else 0, W8);
  }

  lemma {:induction false} CharsRoundTrip(bs: seq<byte>, pos: nat, s: seq<byte>)
    requires Holds(bs, pos, s + [0]) && 0 !in s
    ensures ReadChars(bs, pos, |s| + 1) == (s, pos + |s| + 1)
    decreases |s|
  {
    assert bs[pos] == bs[pos..pos + |s + [0]|][0] == (s + [0])[0];
    if s == [] {
    } else {
      assert s == [s[0]] + s[1..];
      assert s + [0] == [s[0]] + (s[1..] + [0]);
      HoldsSplit(bs, pos, [s[0]], s[1..] + [0]);
      assert s[0] in s;
      CharsRoundTrip(bs, pos + 1, s[1..]);
    }
  }

  lemma PairParts(a: Ty, b: Ty, v: Val, bs: seq<byte>, pos: nat)
    requires HasType(Pair(a, b), v) && Sendable(v) && Holds(bs, pos, Encode(Pair(a, b), v))
    ensures v.Two? && HasType(a, v.first) && HasType(b, v.second) && Sendable(v.first) && Sendable(v.second)
    ensures |Encode(Pair(a, b), v)| == |Encode(a, v.first)| + |Encode(b, v.second)|
    ensures Holds(bs, pos, Encode(a, v.first)) && Holds(bs, pos + |Encode(a, v.first)|, Encode(b, v.second))
  {
    hide Holds, LittleEndian, Header, EncodeAll, Sorted;
    HoldsSplit(bs, pos, Encode(a, v.first), Encode(b, v.second));
  }

  lemma PairDecodes(a: Ty, b: Ty, v: Val, bs: seq<byte>, pos: nat)
    requires v.Two? && HasType(a, v.first) && HasType(b, v.second)
    requires Decode(a, bs, pos) == (v.first, pos + |Encode(a, v.first)|)
    requires var mid := pos + |Encode(a, v.first)|; Decode(b, bs, mid) == (v.second, mid + |Encode(b, v.second)|)
    ensures Decode(Pair(a, b), bs, pos) == (v, pos + |Encode(a, v.first)| + |Encode(b, v.second)|)
  {
    hide Encode, HasType, DecodeItems, ReadChars, ReadScalar, Inserted;
  }

  lemma TextRoundTrip(s: seq<byte>, bs: seq<byte>, pos: nat)
    requires 0 !in s && |s| + 1 < 0x1_0000_0000 && Holds(bs, pos, Header(|s| + 1) + s + [0])
    ensures ReadScalar(bs, pos, 4) == |s| + 1
    ensures ReadChars(bs, pos + 4, |s| + 1) == (s, pos + 4 + |s| + 1)
  {
    hide LittleEndian, ReadChars, ReadScalar, Holds;
    assert Header(|s| + 1) + s + [0] == Header(|s| + 1) + (s + [0]);
    HoldsSplit(bs, pos, Header(|s| + 1), s + [0]);
    ScalarRoundTrip(bs, pos, |s| + 1, W32);
    CharsRoundTrip(bs, pos + 4, s);
  }

  lemma LeafRoundTrip(t: Ty, v: Val, bs: seq<byte>, pos: nat)
    requires HasType(t, v) && Sendable(v) && Holds(bs, pos, Encode(t, v))
    requires t.Unsigned? || t.Signed? || t.Boolean? || t.Str?
    ensures Decode(t, bs, pos) == (v, pos + |Encode(t, v)|)
  {
    hide LittleEndian, ReadScalar, ReadChars, Holds, ToSigned;
    match t
    case Unsigned(w) => ScalarRoundTrip(bs, pos, v.n, w);
    case Signed(w) => SignedRoundTrip(bs, pos, v.n, w);
    case Boolean => BooleanRoundTrip(bs, pos, v.b);
    case Str => TextRoundTrip(v.chars, bs, pos);
  }

  /** Reading back what was written: the same value, and the cursor exactly behind its encoding, whatever surrounds
      it. */
  lemma {:induction false} RoundTrip(t: Ty, v: Val, bs: seq<byte>, pos: nat)
    requires HasType(t, v) && Sendable(v) && Holds(bs, pos, Encode(t, v))
    ensures Decode(t, bs, pos) == (v, pos + |Encode(t, v)|)
    decreases t, 0
  {
    hide HasType, Sendable, Holds, Encode, EncodeAll, Decode, DecodeItems, Header;
    match t
    case Unsigned(w) => LeafRoundTrip(t, v, bs, pos);
    case Signed(w) => LeafRoundTrip(t, v, bs, pos);
    case Boolean => LeafRoundTrip(t, v, bs, pos);
    case Str => LeafRoundTrip(t, v, bs, pos);
    case Pair(a, b) =>
      PairParts(a, b, v, bs, pos);
      RoundTrip(a, v.first, bs, pos);
      RoundTrip(b, v.second, bs, pos + |Encode(a, v.first)|);
      PairDecodes(a, b, v, bs, pos);
    case Vector(e) => ContainerRoundTrip(t, e, v, bs, pos);
    case List(e) => ContainerRoundTrip(t, e, v, bs, pos);
    case Map(e) => ContainerRoundTrip(t, e, v, bs, pos);
  }

  lemma {:induction false} ContainerRoundTrip(t: Ty, e: Ty, v: Val, bs: seq<byte>, pos: nat)
    requires t == Vector(e) || t == List(e) || t == Map(e)
    requires HasType(t, v) && Sendable(v) && Holds(bs, pos, Encode(t, v))
    ensures Decode(t, bs, pos) == (v, pos + |Encode(t, v)|)
    decreases e, 3
  {
    hide Holds, EncodeAll, DecodeItems, Inserted, Sorted;
    ItemsRoundTrip(e, v.vals, bs, pos);
    if t.Map? {
      SortedRebuilt(v.vals);
    }
  }

  lemma {:induction false} ItemsRoundTrip(t: Ty, vs: seq<Val>, bs: seq<byte>, pos: nat)
    requires |vs| <= MAX_ARR_SIZE
    requires forall i :: 0 <= i < |vs| ==> HasType(t, vs[i]) && Sendable(vs[i])
    requires Holds(bs, pos, Header(|vs|) + EncodeAll(t, vs))
    ensures DecodeItems(t, bs, pos) == (vs, pos + 4 + |EncodeAll(t, vs)|)
    decreases t, 2
  {
    hide LittleEndian, ReadScalar, Holds, HasType, Sendable, DecodeAll;
    HoldsSplit(bs, pos, Header(|vs|), EncodeAll(t, vs));
    ScalarRoundTrip(bs, pos, |vs|, W32);
    AllRoundTrip(t, vs, bs, pos + 4);
  }

  lemma {:induction false} AllRoundTrip(t: Ty, vs: seq<Val>, bs: seq<byte>, pos: nat)
    requires forall i :: 0 <= i < |vs| ==> HasType(t, vs[i]) && Sendable(vs[i])
    requires Holds(bs, pos, EncodeAll(t, vs))
    ensures DecodeAll(t, bs, pos, |vs|) == (vs, pos + |EncodeAll(t, vs)|)
    decreases t, 1, |vs|
  {
    hide Encode, Decode, Holds, HasType, Sendable;
    if vs == [] {
    } else {
      assert vs == [vs[0]] + vs[1..];
      HoldsSplit(bs, pos, Encode(t, vs[0]), EncodeAll(t, vs[1..]));
      RoundTrip(t, vs[0], bs, pos);
      AllRoundTrip(t, vs[1..], bs, pos + |Encode(t, vs[0])|);
    }
  }

  // ----- What does not survive

  lemma {:induction false} CharsStopAtNul(bs: seq<byte>, pos: nat, a: seq<byte>, len: nat)
    requires Holds(bs, pos, a + [0]) && 0 !in a && |a| < len
    ensures ReadChars(bs, pos, len) == (a, pos + |a| + 1)
    decreases |a|
  {
    assert bs[pos] == bs[pos..pos + |a + [0]|][0] == (a + [0])[0];
    if a == [] {
    } else {
      assert a == [a[0]] + a[1..];
      assert a + [0] == [a[0]] + (a[1..] + [0]);
      HoldsSplit(bs, pos, [a[0]], a[1..] + [0]);
      assert a[0] in a;
      CharsStopAtNul(bs, pos + 1, a[1..], len - 1);
    }
  }

  /** A string with a NUL inside comes back cut at the NUL, and the cursor stops there, inside its encoding. */
  lemma NulCutsString(a: seq<byte>, b: seq<byte>, rest: seq<byte>)
    requires 0 !in a && |a| + |b| + 2 < 0x1_0000_0000
    ensures var v := Text(a + [0] + b);
      Decode(Str, Encode(Str, v) + rest, 0) == (Text(a), 4 + |a| + 1) && 4 + |a| + 1 < |Encode(Str, v)|
  {
    hide LittleEndian, ReadScalar, ReadChars;
    var len := |a| + 1 + |b| + 1;
    var bs := Header(len) + (a + [0] + b) + [0] + rest;
    assert bs == [] + Header(len) + ((a + [0]) + (b + [0] + rest));
    assert Holds(bs, 0, Header(len)) && Holds(bs, 4, a + [0]);
    ScalarRoundTrip(bs, 0, len, W32);
    CharsStopAtNul(bs, 4, a, len);
  }

  lemma EncodeAllLonger(t: Ty, vs: seq<Val>)
    requires vs != [] && forall i :: 0 <= i < |vs| ==> HasType(t, vs[i])
    ensures |EncodeAll(t, vs)| >= |Encode(t, vs[0])|
  {
    hide Encode, HasType;
  }

  lemma {:induction false} EncodingNotEmpty(t: Ty, v: Val)
    requires HasType(t, v)
    ensures Encode(t, v) != []
    decreases t
  {
    match t
    case Pair(a, b) => EncodingNotEmpty(a, v.first);
    case _ =>
  }

  /** A vector, list or map of more than 1024 entries comes back empty, with the cursor in front of its entries. */
  lemma LargeContainerIsLost(t: Ty, vs: seq<Val>, rest: seq<byte>)
    requires t.Vector? || t.List? || t.Map?
    requires HasType(t, Items(vs)) && MAX_ARR_SIZE < |vs| < 0x1_0000_0000
    ensures Decode(t, Encode(t, Items(vs)) + rest, 0) == (Items([]), 4) && 4 < |Encode(t, Items(vs))|
  {
    hide LittleEndian, ReadScalar, EncodeAll, DecodeAll, Sorted;
    var bs := Encode(t, Items(vs)) + rest;
    assert Encode(t, Items(vs)) == Header(|vs|) + EncodeAll(t.elem, vs);
    assert Holds(bs, 0, Header(|vs|));
    ScalarRoundTrip(bs, 0, |vs|, W32);
    EncodingNotEmpty(t.elem, vs[0]);
    assert |EncodeAll(t.elem, vs)| > 0 by { EncodeAllLonger(t.elem, vs); }
  }

  /** No encoding is a prefix of another, and equal encodings come from equal values. */
  lemma PrefixFree(t: Ty, v: Val, u: Val, tail: seq<byte>)
    requires HasType(t, v) && Sendable(v) && HasType(t, u) && Sendable(u)
    requires Encode(t, v) + tail == Encode(t, u)
    ensures v == u && tail == []
  {
    var bs := Encode(t, u);
    assert bs[0..|bs|] == bs && bs[0..|Encode(t, v)|] == Encode(t, v);
    RoundTrip(t, v, bs, 0);
    RoundTrip(t, u, bs, 0);
  }

  // ----- Decoding arbitrary bytes

  lemma {:induction false} ReadCharsBounds(bs: seq<byte>, pos: nat, len: nat)
    ensures var (s, end) := ReadChars(bs, pos, len);
      0 !in s && |s| <= len && pos + |s| <= end <= pos + |s| + 1 && (s != [] ==> pos + |s| <= |bs|)
    decreases len
  {
    if len == 0 {
    } else {
      ReadCharsBounds(bs, pos + 1, len - 1);
    }
  }

  lemma ReadScalarBelow(bs: seq<byte>, pos: nat, w: Width)
    ensures ReadScalar(bs, pos, w.Size()) < w.Range()
  {
    RangeIsPow256(w);
    if pos + w.Size() <= |bs| { FromLittleEndianBelow(bs[pos..pos + w.Size()]); }
  }

  /** Whatever the bytes and wherever the cursor: the result has the type, the cursor does not go back, and in storage
      smaller than 4 GiB (a 32-bit size_t) everything decoded is sendable again. */
  lemma {:induction false} DecodeGivesValue(t: Ty, bs: seq<byte>, pos: nat)
    ensures var (v, end) := Decode(t, bs, pos);
      HasType(t, v) && pos <= end && (|bs| < 0x1_0000_0000 ==> Sendable(v))
    decreases t, 0
  {
    hide ReadScalar, ReadChars, DecodeItems, Inserted, Sorted;
    match t
    case Unsigned(w) => ReadScalarBelow(bs, pos, w);
    case Signed(w) => ReadScalarBelow(bs, pos, w);
    case Boolean =>
    case Str => ReadCharsBounds(bs, pos + 4, ReadScalar(bs, pos, 4));
    case Pair(a, b) =>
      DecodeGivesValue(a, bs, pos);
      DecodeGivesValue(b, bs, Decode(a, bs, pos).1);
    case Vector(e) => DecodeItemsGivesValues(e, bs, pos);
    case List(e) => DecodeItemsGivesValues(e, bs, pos);
    case Map(e) =>
      DecodeItemsGivesValues(e, bs, pos);
      var vs := DecodeItems(e, bs, pos).0;
      InsertedIsSorted(vs);
      forall i | 0 <= i < |Inserted(vs)|
        ensures HasType(e, Inserted(vs)[i]) && (|bs| < 0x1_0000_0000 ==> Sendable(Inserted(vs)[i]))
      {
        assert Inserted(vs)[i] in vs;
      }
  }

  lemma {:induction false} DecodeItemsGivesValues(t: Ty, bs: seq<byte>, pos: nat)
    ensures var (vs, end) := DecodeItems(t, bs, pos);
      |vs| <= MAX_ARR_SIZE && pos <= end
      && forall i :: 0 <= i < |vs| ==> HasType(t, vs[i]) && (|bs| < 0x1_0000_0000 ==> Sendable(vs[i]))
    decreases t, 2
  {
    hide Decode, DecodeAll, ReadScalar, HasType, Sendable;
    var n := ReadScalar(bs, pos, 4);
    if n <= MAX_ARR_SIZE { DecodeAllGivesValues(t, bs, pos + 4, n); }
  }

  lemma {:induction false} DecodeAllGivesValues(t: Ty, bs: seq<byte>, pos: nat, n: nat)
    ensures var (vs, end) := DecodeAll(t, bs, pos, n);
      |vs| == n && pos <= end
      && forall i :: 0 <= i < |vs| ==> HasType(t, vs[i]) && (|bs| < 0x1_0000_0000 ==> Sendable(vs[i]))
    decreases t, 1, n
  {
    hide Decode, HasType, Sendable;
    if n == 0 {
    } else {
      DecodeGivesValue(t, bs, pos);
      DecodeAllGivesValues(t, bs, Decode(t, bs, pos).1, n - 1);
    }
  }

  /** Decoding, encoding and decoding again gives the first result. */
  lemma DecodeEncodeDecode(t: Ty, bs: seq<byte>, pos: nat)
    requires |bs| < 0x1_0000_0000
    ensures var v := Decode(t, bs, pos).0;
      HasType(t, v) && Decode(t, Encode(t, v), 0) == (v, |Encode(t, v)|)
  {
    DecodeGivesValue(t, bs, pos);
    var v := Decode(t, bs, pos).0;
    assert Encode(t, v)[0..|Encode(t, v)|] == Encode(t, v);
    RoundTrip(t, v, Encode(t, v), 0);
  }

  /** Exactly the sendable values survive: a string with a NUL inside, or a container of more than 1024 entries,
      never does, however deep it is nested. */
  lemma RoundTripExactlyWhenSendable(t: Ty, v: Val, rest: seq<byte>)
    requires HasType(t, v) && |Encode(t, v) + rest| < 0x1_0000_0000
    ensures Decode(t, Encode(t, v) + rest, 0).0 == v <==> Sendable(v)
  {
    var bs := Encode(t, v) + rest;
    if Sendable(v) {
      assert bs[0..|Encode(t, v)|] == Encode(t, v);
      RoundTrip(t, v, bs, 0);
    } else {
      DecodeGivesValue(t, bs, 0);
    }
  }
}
