/** The byte format and the decoded values, stated across types and in closed form (ByteBuffer.h). */
module WireLaws {
  import opened Arith
  import opened Bytes
  import opened Wire

  // ----- The order that a map is iterated in

  /** The two strings agree up to place p, where the first ends or has the smaller character. */
  predicate SmallerAt(s: seq<byte>, t: seq<byte>, p: nat) {
    p <= |s| && p < |t| && s[..p] == t[..p] && (p == |s| || s[p] < t[p])
  }

  lemma {:induction false} TextOrderMeans(s: seq<byte>, t: seq<byte>)
    ensures TextBefore(s, t) <==> exists p: nat :: SmallerAt(s, t, p)
    decreases |s|
  {
    if t == [] || s == [] {
      assert t != [] ==> SmallerAt(s, t, 0);
    } else {
      TextOrderMeans(s[1..], t[1..]);
      if s[0] < t[0] {
        assert SmallerAt(s, t, 0);
      } else if TextBefore(s, t) {
        var p: nat :| SmallerAt(s[1..], t[1..], p);
        assert s[..p + 1] == [s[0]] + s[1..][..p] && t[..p + 1] == [t[0]] + t[1..][..p];
        assert SmallerAt(s, t, p + 1);
      } else if p: nat :| SmallerAt(s, t, p) {
        assert p != 0 ==> s[..p][0] == t[..p][0];
        assert p != 0 ==> s[1..][..p - 1] == s[..p][1..] && t[1..][..p - 1] == t[..p][1..];
        assert SmallerAt(s[1..], t[1..], p - 1);
      }
    }
  }

  ghost predicate SmallerItemAt(xs: seq<Val>, ys: seq<Val>, p: nat) {
    p <= |xs| && p < |ys| && xs[..p] == ys[..p] && (p == |xs| || Before(xs[p], ys[p]))
  }

  lemma {:induction false} ItemsOrderMeans(xs: seq<Val>, ys: seq<Val>)
    ensures ItemsBefore(xs, ys) <==> exists p: nat :: SmallerItemAt(xs, ys, p)
    decreases |xs|
  {
    hide Before;
    if ys == [] || xs == [] {
      assert ys != [] ==> SmallerItemAt(xs, ys, 0);
    } else {
      ItemsOrderMeans(xs[1..], ys[1..]);
      if Before(xs[0], ys[0]) {
        assert SmallerItemAt(xs, ys, 0);
      } else if ItemsBefore(xs, ys) {
        var p: nat :| SmallerItemAt(xs[1..], ys[1..], p);
        assert xs[..p + 1] == [xs[0]] + xs[1..][..p] && ys[..p + 1] == [ys[0]] + ys[1..][..p];
        assert SmallerItemAt(xs, ys, p + 1);
      } else if p: nat :| SmallerItemAt(xs, ys, p) {
        assert p != 0 ==> xs[..p][0] == ys[..p][0];
        assert p != 0 ==> xs[1..][..p - 1] == xs[..p][1..] && ys[1..][..p - 1] == ys[..p][1..];
        assert SmallerItemAt(xs[1..], ys[1..], p - 1);
      }
    }
  }

  /** Integers by size, false before true, strings and containers by their first difference, pairs by their first
      component and then their second. */
  lemma OrderMeans()
    ensures forall n, k :: Before(Num(n), Num(k)) <==> n < k
    ensures forall p, q :: Before(Flag(p), Flag(q)) <==> !p && q
    ensures forall s, t :: Before(Text(s), Text(t)) <==> exists p: nat :: SmallerAt(s, t, p)
    ensures forall xs, ys :: Before(Items(xs), Items(ys)) <==> exists p: nat :: SmallerItemAt(xs, ys, p)
    ensures forall x, y, u, v :: Before(Two(x, y), Two(u, v)) <==> Before(x, u) || (x == u && Before(y, v))
  {
    forall s, t ensures Before(Text(s), Text(t)) <==> exists p: nat :: SmallerAt(s, t, p) {
      TextOrderMeans(s, t);
    }
    forall xs, ys ensures Before(Items(xs), Items(ys)) <==> exists p: nat :: SmallerItemAt(xs, ys, p) {
      ItemsOrderMeans(xs, ys);
    }
  }

  // ----- What a map holds

  datatype Option<T> = None | Some(value: T)

  /** Linear search for the first pair with this first component; the result is its second component. */
  function Lookup(es: seq<Val>, k: Val): Option<Val> {
    if es == [] then None
    else if es[0].Two? && es[0].first == k then Some(es[0].second)
    else Lookup(es[1..], k)
  }

  predicate Pairs(es: seq<Val>) {
    forall i :: 0 <= i < |es| ==> es[i].Two?
  }

  ghost predicate Ascending(es: seq<Val>)
    requires Pairs(es)
  {
    forall i, j :: 0 <= i < j < |es| ==> Before(es[i].first, es[j].first)
  }

  lemma {:induction false} LookupSnoc(es: seq<Val>, e: Val, k: Val)
    ensures Lookup(es + [e], k) == if Lookup(es, k).Some? then Lookup(es, k) else Lookup([e], k)
  {
    if es == [] {
      assert es + [e] == [e];
    } else {
      LookupSnoc(es[1..], e, k);
      assert (es + [e])[1..] == es[1..] + [e];
    }
  }

  /** In a sequence whose first components are all greater than k there is nothing to find. */
  lemma {:induction false} NoneBelow(es: seq<Val>, k: Val)
    requires Pairs(es) && forall i :: 0 <= i < |es| ==> Before(k, es[i].first)
    ensures Lookup(es, k) == None
  {
    hide Before;
    if es == [] {
    } else {
      Irreflexive(k);
      NoneBelow(es[1..], k);
    }
  }

  lemma {:induction false} InsertLookup(es: seq<Val>, e: Val, k: Val)
    requires Pairs(es) && Ascending(es) && e.Two?
    ensures Pairs(Insert(es, e)) && Ascending(Insert(es, e))
    ensures Lookup(Insert(es, e), k) == if Lookup(es, k).Some? then Lookup(es, k) else Lookup([e], k)
  {
    hide Before;
    if es == [] {
    } else if Before(e.first, es[0].first) {
      forall j | 0 <= j < |es| ensures Before(e.first, es[j].first) {
        if 0 < j { Transitive(e.first, es[0].first, es[j].first); }
      }
      if e.first == k { NoneBelow(es, k); }
      assert ([e] + es)[1..] == es;
    } else if e.first == es[0].first {
    } else {
      Trichotomy(e.first, es[0].first);
      InsertLookup(es[1..], e, k);
      InsertMembers(es[1..], e);
      var t := Insert(es[1..], e);
      forall j | 0 <= j < |t| ensures Before(es[0].first, t[j].first) {
        assert t[j] in t;
        if t[j] in es[1..] { var i :| 0 <= i < |es[1..]| && es[1..][i] == t[j]; assert es[i + 1] == t[j]; }
      }
      assert Insert(es, e) == [es[0]] + t && ([es[0]] + t)[1..] == t;
    }
  }

  /** Whatever pairs are inserted in whatever order: a search in the resulting map finds what a search in the pairs
      finds, the first one with that key, and the map's keys ascend strictly. */
  lemma {:induction false} MapLookup(vs: seq<Val>, k: Val)
    requires Pairs(vs)
    ensures Pairs(Inserted(vs)) && Ascending(Inserted(vs))
    ensures Lookup(Inserted(vs), k) == Lookup(vs, k)
    decreases |vs|
  {
    hide Insert, Before;
    if vs == [] {
    } else {
      var init, last := vs[..|vs| - 1], vs[|vs| - 1];
      MapLookup(init, k);
      InsertLookup(Inserted(init), last, k);
      LookupSnoc(init, last, k);
      assert vs == init + [last];
    }
  }

  lemma PairsDecoded(a: Ty, b: Ty, bs: seq<byte>, pos: nat)
    ensures Pairs(DecodeItems(Pair(a, b), bs, pos).0)
  {
    hide DecodeItems, Decode;
    DecodeItemsGivesValues(Pair(a, b), bs, pos);
  }

  /** The same bytes read as a map and as a vector of pairs: the same end, and the map has for every key the first of
      the pairs with that key, in strictly ascending order. */
  lemma MapReadsFirstPairs(a: Ty, b: Ty, bs: seq<byte>, pos: nat, k: Val)
    ensures var (m, end) := Decode(Map(Pair(a, b)), bs, pos); var (v, end') := Decode(Vector(Pair(a, b)), bs, pos);
      && m.Items? && v.Items? && end == end' && Pairs(v.vals) && Pairs(m.vals) && Ascending(m.vals)
      && Lookup(m.vals, k) == Lookup(v.vals, k)
  {
    hide Before, HasType, Inserted;
    var vs := DecodeItems(Pair(a, b), bs, pos).0;
    PairsDecoded(a, b, bs, pos);
    MapLookup(vs, k);
  }

  /** What a std::map<K, V> variable can hold: pairs of the two types, the first components strictly ascending. */
  lemma MapTypeExactly(a: Ty, b: Ty, es: seq<Val>)
    ensures HasType(Map(Pair(a, b)), Items(es)) <==>
      && Pairs(es) && Ascending(es)
      && forall i :: 0 <= i < |es| ==> HasType(a, es[i].first) && HasType(b, es[i].second)
  {
    hide Before;
    if HasType(Map(Pair(a, b)), Items(es)) {
      assert forall i :: 0 <= i < |es| ==> HasType(Pair(a, b), es[i]);
      assert forall i, j :: 0 <= i < j < |es| ==> Before(Key(es[i]), Key(es[j]));
    } else if Pairs(es) && Ascending(es)
      && forall i :: 0 <= i < |es| ==> HasType(a, es[i].first) && HasType(b, es[i].second) {
      assert forall i :: 0 <= i < |es| ==> HasType(Pair(a, b), es[i]);
      assert Sorted(es);
    }
  }

  /** For integer keys: the numbers themselves ascend. */
  lemma IntegerKeysAscend(a: Ty, b: Ty, bs: seq<byte>, pos: nat)
    requires a.Unsigned? || a.Signed?
    ensures var m := Decode(Map(Pair(a, b)), bs, pos).0;
      && m.Items?
      && (forall i :: 0 <= i < |m.vals| ==> m.vals[i].Two? && m.vals[i].first.Num?)
      && forall i, j :: 0 <= i < j < |m.vals| ==> m.vals[i].first.n < m.vals[j].first.n
  {
    hide Decode, Sorted;
    var m := Decode(Map(Pair(a, b)), bs, pos).0;
    DecodeGivesValue(Map(Pair(a, b)), bs, pos);
    assert HasType(Map(Pair(a, b)), m) && m.Items?;
    MapTypeExactly(a, b, m.vals);
    assert forall i :: 0 <= i < |m.vals| ==> HasType(a, m.vals[i].first) && m.vals[i].first.Num?;
    forall i, j | 0 <= i < j < |m.vals| ensures m.vals[i].first.n < m.vals[j].first.n {
      assert Before(m.vals[i].first, m.vals[j].first);
    }
  }

  // ----- The bytes of integers and booleans

  lemma {:induction false} LittleEndianDigit(x: nat, n: nat, k: nat)
    requires k < n
    ensures LittleEndian(x, n)[k] == x / Pow256(k) % 256
  {
    if k == 0 {
    } else {
      LittleEndianDigit(x / 256, n - 1, k - 1);
      DivTwice(x, 256, Pow256(k - 1));
    }
  }

  /** Byte k of the encoding is digit k of the number, taken modulo the type's range, in base 256. */
  lemma IntegerBytes(t: Ty, n: int, k: nat)
    requires (t.Unsigned? || t.Signed?) && HasType(t, Num(n)) && k < |Encode(t, Num(n))|
    ensures Encode(t, Num(n))[k] == (n % t.width.Range()) / Pow256(k) % 256
  {
    hide LittleEndian, Pow256;
    var r := t.width.Range();
    if t.Unsigned? {
      DivModUnique(n, r, 0, n);
    }
    LittleEndianDigit(n % r, t.width.Size(), k);
  }

  /** One, two, four and eight bytes, and the ranges that go with them. */
  lemma IntegerSizes(n: int)
    ensures HasType(Unsigned(W8), Num(n)) <==> 0 <= n < 256
    ensures HasType(Unsigned(W16), Num(n)) <==> 0 <= n < 65536
    ensures HasType(Unsigned(W32), Num(n)) <==> 0 <= n < 4294967296
    ensures HasType(Unsigned(W64), Num(n)) <==> 0 <= n < 18446744073709551616
    ensures HasType(Signed(W8), Num(n)) <==> -128 <= n < 128
    ensures HasType(Signed(W16), Num(n)) <==> -32768 <= n < 32768
    ensures HasType(Signed(W32), Num(n)) <==> -2147483648 <= n < 2147483648
    ensures HasType(Signed(W64), Num(n)) <==> -9223372036854775808 <= n < 9223372036854775808
    ensures 0 <= n < 128 ==>
      && |Encode(Unsigned(W8), Num(n))| == 1 == |Encode(Signed(W8), Num(n))|
      && |Encode(Unsigned(W16), Num(n))| == 2 == |Encode(Signed(W16), Num(n))|
      && |Encode(Unsigned(W32), Num(n))| == 4 == |Encode(Signed(W32), Num(n))|
      && |Encode(Unsigned(W64), Num(n))| == 8 == |Encode(Signed(W64), Num(n))|
  {
  }

  /** A bool is sent as the uint8 0 or 1. */
  lemma BooleanIsByte(b: bool)
    ensures HasType(Unsigned(W8), Num(if b then 1 else 0))
    ensures Encode(Boolean, Flag(b)) == Encode(Unsigned(W8), Num(if b then 1 else 0))
  {
    assert LittleEndian(if b then 1 else 0, 1) == [if b then 1 else 0];
  }

  // ----- The bytes of containers and strings

  lemma VectorParts(t: Ty, vs: seq<Val>)
    requires HasType(Vector(t), Items(vs))
    ensures Encode(Vector(t), Items(vs)) == Header(|vs|) + EncodeAll(t, vs)
  {
    hide LittleEndian, EncodeAll;
  }

  lemma {:induction false} EncodeAllConcat(t: Ty, us: seq<Val>, vs: seq<Val>)
    requires forall i :: 0 <= i < |us| ==> HasType(t, us[i])
    requires forall i :: 0 <= i < |vs| ==> HasType(t, vs[i])
    ensures EncodeAll(t, us + vs) == EncodeAll(t, us) + EncodeAll(t, vs)
    decreases |us|
  {
    hide Encode, HasType;
    if us == [] {
      assert us + vs == vs;
    } else {
      EncodeAllConcat(t, us[1..], vs);
      assert (us + vs)[1..] == us[1..] + vs;
    }
  }

  lemma EncodeOne(t: Ty, v: Val)
    requires HasType(t, v)
    ensures EncodeAll(t, [v]) == Encode(t, v) && EncodeAll(t, []) == []
  {
    hide Encode, HasType;
  }

  lemma HeaderIsNumber(n: nat)
    requires n < 0x1_0000_0000
    ensures HasType(Unsigned(W32), Num(n)) && Header(n) == Encode(Unsigned(W32), Num(n))
  {
    hide LittleEndian;
  }

  /** A container starts with its number of entries as a uint32, and behind that: nothing if it is empty, the entry's
      own encoding if it has one, and first what the first part and then what the second part of it would have. */
  lemma VectorLayout(t: Ty, us: seq<Val>, vs: seq<Val>, v: Val)
    requires HasType(Vector(t), Items(us)) && HasType(Vector(t), Items(vs)) && HasType(t, v)
    ensures HasType(Vector(t), Items(us + vs)) && HasType(Vector(t), Items([v]))
    ensures |us| < 0x1_0000_0000 ==>
      4 <= |Encode(Vector(t), Items(us))| && Encode(Vector(t), Items(us))[..4] == Encode(Unsigned(W32), Num(|us|))
    ensures |Encode(Vector(t), Items([]))| == 4
    ensures Encode(Vector(t), Items([v]))[4..] == Encode(t, v)
    ensures Encode(Vector(t), Items(us + vs))[4..]
         == Encode(Vector(t), Items(us))[4..] + Encode(Vector(t), Items(vs))[4..]
  {
    hide LittleEndian, Encode, EncodeAll;
    VectorParts(t, us);
    VectorParts(t, vs);
    VectorParts(t, us + vs);
    VectorParts(t, [v]);
    VectorParts(t, []);
    EncodeAllConcat(t, us, vs);
    EncodeOne(t, v);
    if |us| < 0x1_0000_0000 { HeaderIsNumber(|us|); }
  }

  /** Lists and maps are sent as the vector of their entries, and a pair as its two components. */
  lemma ContainersAlike(t: Ty, vs: seq<Val>, b: Ty, x: Val, y: Val)
    requires HasType(Vector(t), Items(vs)) && HasType(t, x) && HasType(b, y)
    ensures HasType(List(t), Items(vs)) && Encode(List(t), Items(vs)) == Encode(Vector(t), Items(vs))
    ensures HasType(Map(t), Items(vs)) ==> Encode(Map(t), Items(vs)) == Encode(Vector(t), Items(vs))
    ensures Encode(Pair(t, b), Two(x, y)) == Encode(t, x) + Encode(b, y)
  {
    hide LittleEndian, EncodeAll, Sorted;
  }

  /** The characters of a string as numbers. */
  function Numbers(s: seq<byte>): (vs: seq<Val>)
    ensures |vs| == |s|
  {
    seq(|s|, i requires 0 <= i < |s| => Num(s[i]))
  }

  /** A vector of uint8 is its bytes behind the header. */
  lemma {:induction false} NumbersEncoded(s: seq<byte>)
    ensures forall i :: 0 <= i < |s| ==> HasType(Unsigned(W8), Numbers(s)[i])
    ensures EncodeAll(Unsigned(W8), Numbers(s)) == s
  {
    if s == [] {
    } else {
      NumbersEncoded(s[1..]);
      assert Numbers(s)[1..] == Numbers(s[1..]);
      assert Encode(Unsigned(W8), Num(s[0])) == [s[0]] by { assert LittleEndian(s[0], 1) == [s[0]]; }
      assert s == [s[0]] + s[1..];
    }
  }

  /** A string is sent as the vector of uint8 of its characters followed by a zero. */
  lemma TextIsVector(s: seq<byte>)
    ensures HasType(Vector(Unsigned(W8)), Items(Numbers(s + [0])))
    ensures Encode(Str, Text(s)) == Encode(Vector(Unsigned(W8)), Items(Numbers(s + [0])))
  {
    hide Header, EncodeAll;
    NumbersEncoded(s + [0]);
    assert Header(|s| + 1) + s + [0] == Header(|s| + 1) + (s + [0]);
  }

  // ----- Reading any bytes

  lemma {:induction false} DigitOfBytes(bs: seq<byte>, k: nat)
    requires k < |bs|
    ensures FromLittleEndian(bs) / Pow256(k) % 256 == bs[k]
  {
    var x := FromLittleEndian(bs);
    assert x / 256 == FromLittleEndian(bs[1..]) && x % 256 == bs[0];
    if k == 0 {
    } else {
      DigitOfBytes(bs[1..], k - 1);
      DivTwice(x, 256, Pow256(k - 1));
    }
  }

  /** An integer read in full: its digits in base 256 are the bytes. Otherwise it is 0. */
  lemma UnsignedReadsBytes(w: Width, bs: seq<byte>, pos: nat)
    ensures Decode(Unsigned(w), bs, pos).0.Num? && Decode(Unsigned(w), bs, pos).1 == pos + w.Size()
    ensures var n := Decode(Unsigned(w), bs, pos).0.n;
      && 0 <= n < w.Range()
      && (pos + w.Size() > |bs| ==> n == 0)
      && (pos + w.Size() <= |bs| ==> forall k :: 0 <= k < w.Size() ==> n / Pow256(k) % 256 == bs[pos + k])
  {
    hide Pow256, LittleEndian, FromLittleEndian;
    ReadScalarBelow(bs, pos, w);
    if pos + w.Size() <= |bs| {
      var part := bs[pos..pos + w.Size()];
      forall k | 0 <= k < w.Size() ensures FromLittleEndian(part) / Pow256(k) % 256 == bs[pos + k] {
        DigitOfBytes(part, k);
      }
    }
  }

  /** A signed integer is the one number of its range congruent to the unsigned one; a bool is a positive int8. */
  lemma SignedReadsUnsigned(w: Width, bs: seq<byte>, pos: nat)
    ensures var (s, end) := Decode(Signed(w), bs, pos); var (u, end') := Decode(Unsigned(w), bs, pos);
      && s.Num? && u.Num? && end == end'
      && HasType(Signed(w), s) && (s.n == u.n || s.n == u.n - w.Range())
    ensures var (b, end) := Decode(Boolean, bs, pos); var (s, end') := Decode(Signed(W8), bs, pos);
      b.Flag? && s.Num? && end == end' && (b.b <==> s.n > 0)
  {
    hide FromLittleEndian;
    ReadScalarBelow(bs, pos, w);
  }

  lemma {:induction false} CharsReadToNul(bs: seq<byte>, pos: nat, len: nat)
    ensures var (s, end) := ReadChars(bs, pos, len);
      && 0 !in s && |s| <= len
      && (s != [] ==> pos + |s| <= |bs| && s == bs[pos..pos + |s|])
      && (|s| == len || pos + |s| >= |bs| || bs[pos + |s|] == 0)
      && end == pos + |s| + if |s| == len then 0 else 1
    decreases len
  {
    if len == 0 {
    } else if pos < |bs| && bs[pos] != 0 {
      CharsReadToNul(bs, pos + 1, len - 1);
      var s := ReadChars(bs, pos, len).0;
      assert s == [bs[pos]] + ReadChars(bs, pos + 1, len - 1).0;
    }
  }

  /** A string read from any bytes: the characters up to the first NUL, the declared length or the end of the bytes,
      whichever comes first; unless the length ends it, one more byte is read. */
  lemma TextReadsToNul(bs: seq<byte>, pos: nat)
    ensures var (v, end) := Decode(Str, bs, pos); var len := Decode(Unsigned(W32), bs, pos).0;
      && v.Text? && len.Num?
      && var s, from := v.chars, pos + 4;
      && 0 !in s && |s| <= len.n
      && (s != [] ==> from + |s| <= |bs| && s == bs[from..from + |s|])
      && (|s| == len.n || from + |s| >= |bs| || bs[from + |s|] == 0)
      && end == from + |s| + if |s| == len.n then 0 else 1
  {
    hide FromLittleEndian;
    CharsReadToNul(bs, pos + 4, ReadScalar(bs, pos, 4));
  }

  /** The entries stand one behind the other, from cursor to cursor. */
  ghost predicate InSequence(t: Ty, bs: seq<byte>, vs: seq<Val>, at: seq<nat>) {
    |at| == |vs| + 1 && forall k :: 0 <= k < |vs| ==> Decode(t, bs, at[k]) == (vs[k], at[k + 1])
  }

  lemma {:induction false} AllInSequence(t: Ty, bs: seq<byte>, pos: nat, n: nat) returns (at: seq<nat>)
    ensures var (vs, end) := DecodeAll(t, bs, pos, n);
      |vs| == n && InSequence(t, bs, vs, at) && at[0] == pos && at[n] == end
    decreases n
  {
    hide Decode;
    if n == 0 {
      at := [pos];
    } else {
      var mid := Decode(t, bs, pos).1;
      var rest := AllInSequence(t, bs, mid, n - 1);
      at := [pos] + rest;
      var vs := DecodeAll(t, bs, pos, n).0;
      forall k | 0 <= k < |vs| ensures Decode(t, bs, at[k]) == (vs[k], at[k + 1]) {
        if 0 < k { assert vs[k] == DecodeAll(t, bs, mid, n - 1).0[k - 1]; }
      }
    }
  }

  /** A vector read from any bytes: with a header of at most 1024, so many entries one behind the other; with a greater
      one, nothing. A list is read alike, and a pair as its two components. */
  lemma VectorReadsInSequence(t: Ty, b: Ty, bs: seq<byte>, pos: nat)
    ensures var (x, mid) := Decode(t, bs, pos); var (y, end) := Decode(b, bs, mid);
      Decode(Pair(t, b), bs, pos) == (Two(x, y), end)
    ensures Decode(List(t), bs, pos) == Decode(Vector(t), bs, pos)
    ensures var (v, end) := Decode(Vector(t), bs, pos); var n := Decode(Unsigned(W32), bs, pos).0;
      && v.Items? && n.Num?
      && (n.n > 1024 ==> v.vals == [] && end == pos + 4)
      && (n.n <= 1024 ==>
            && |v.vals| == n.n
            && exists at: seq<nat> :: InSequence(t, bs, v.vals, at) && at[0] == pos + 4 && at[n.n] == end)
  {
    hide DecodeAll;
    var n := ReadScalar(bs, pos, 4);
    if n <= 1024 {
      var at := AllInSequence(t, bs, pos + 4, n);
    }
  }

  lemma SurvivesInFront(t: Ty, v: Val, rest: seq<byte>)
    requires HasType(t, v) && Sendable(v)
    ensures Decode(t, Encode(t, v) + rest, 0) == (v, |Encode(t, v)|)
  {
    hide Decode, Encode, HasType, Sendable;
    var part := Encode(t, v);
    assert (part + rest)[0..|part|] == part;
    RoundTrip(t, v, part + rest, 0);
  }

  /** Up to 1024 entries a container of sendable entries survives, and so does a string without NUL, of any length
      below 4 GiB. */
  lemma WithinLimitsSurvives(t: Ty, vs: seq<Val>, s: seq<byte>, rest: seq<byte>)
    requires t.Vector? || t.List? || t.Map?
    requires HasType(t, Items(vs)) && |vs| <= 1024 && forall i :: 0 <= i < |vs| ==> Sendable(vs[i])
    requires 0 !in s && |s| + 1 < 0x1_0000_0000
    ensures Decode(t, Encode(t, Items(vs)) + rest, 0) == (Items(vs), |Encode(t, Items(vs))|)
    ensures Decode(Str, Encode(Str, Text(s)) + rest, 0) == (Text(s), |Encode(Str, Text(s))|)
  {
    hide Decode, Encode;
    SurvivesInFront(t, Items(vs), rest);
    SurvivesInFront(Str, Text(s), rest);
  }
}
