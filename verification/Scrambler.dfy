/** The stateful byte scrambler of a session (MessageEncrypt.cpp). */
module Scrambler {
  import opened Arith

  type Table = t: seq<bv8> | |t| == 256 witness seq(256, _ => 0)

  // ----- Bytes

  function Xor(a: bv8, b: bv8): bv8 {
    a ^ b
  }

  lemma XorLaws(a: bv8, b: bv8, c: bv8)
    ensures Xor(Xor(a, b), c) == Xor(a, Xor(b, c))
    ensures Xor(Xor(a, b), b) == a
    ensures Xor(0, a) == a && Xor(a, 0) == a
  {
  }

  /** The low `n` bits of an `int`, read off one at a time. */
  function LowBits(x: nat, n: nat): bv8
    decreases x, n
  {
    if n == 0 then 0 else (LowBits(x / 2, n - 1) << 1) | (if x % 2 == 1 then 1 else 0)
  }

  /** `unsigned char ^= int` keeps the low eight bits of the right-hand side. */
  function Low(x: nat): bv8 {
    LowBits(x, 8)
  }

  function PowerOfTwo(n: nat): nat
    requires n <= 8
  {
    [1, 2, 4, 8, 16, 32, 64, 128, 256][n]
  }

  lemma ShiftIn(b: bv8, one: bool)
    requires (b as nat) < 128
    ensures ((b << 1) | (if one then 1 else 0)) as nat == 2 * (b as nat) + (if one then 1 else 0)
  {
    assert b < 128;
  }

  lemma AppendBit(b: bv8, x: nat, p: nat)
    requires 0 < p <= 128 && b as nat == (x / 2) % p
    ensures ((b << 1) | (if x % 2 == 1 then 1 else 0)) as nat == x % (2 * p)
  {
    assert (b as nat) < 128;
    ShiftIn(b, x % 2 == 1);
    ModOfMultiple(x, 2, p);
  }

  lemma {:induction false} LowBitsMeans(x: nat, n: nat)
    requires n <= 8
    ensures LowBits(x, n) as nat == x % PowerOfTwo(n)
    decreases n
  {
    if n == 0 {
    } else {
      LowBitsMeans(x / 2, n - 1);
      AppendBit(LowBits(x / 2, n - 1), x, PowerOfTwo(n - 1));
    }
  }

  /** Low is reduction modulo 256. */
  lemma LowMeans(x: nat)
    ensures Low(x) as nat == x % 256
  {
    LowBitsMeans(x, 8);
  }

  function ShiftedLeft(data: bv8, n: nat): bv8
    requires n < 8
  {
    ((((data as bv32) >> (8 - n)) | ((data as bv32) << n)) & 0xff) as bv8
  }

  /** rotate_left_char: the shifts are done on a wide word, the result is cut back to eight bits. */
  function RotateLeft(data: bv8, count: nat): bv8 {
    ShiftedLeft(data, count % 8)
  }

  function ShiftedRight(data: bv8, n: nat): bv8
    requires n < 8
  {
    ((((data as bv32) >> n) | ((data as bv32) << (8 - n))) & 0xff) as bv8
  }

  function RotateRight(data: bv8, count: nat): bv8 {
    ShiftedRight(data, count % 8)
  }

  /** On eight bits the wide word is not needed. */
  lemma ShiftedNarrow(data: bv8, n: nat)
    requires n < 8
    ensures ShiftedLeft(data, n) == (data << n) | (data >> (8 - n))
    ensures ShiftedRight(data, n) == (data >> n) | (data << (8 - n))
  {
    if n == 0 {} else if n == 1 {} else if n == 2 {} else if n == 3 {}
    else if n == 4 {} else if n == 5 {} else if n == 6 {} else { assert n == 7; }
  }

  lemma NarrowCancel(data: bv8, n: nat)
    requires n < 8
    ensures var x := (data << n) | (data >> (8 - n)); (x >> n) | (x << (8 - n)) == data
    ensures var x := (data >> n) | (data << (8 - n)); (x << n) | (x >> (8 - n)) == data
  {
    if n == 0 {} else if n == 1 {} else if n == 2 {} else if n == 3 {}
    else if n == 4 {} else if n == 5 {} else if n == 6 {} else { assert n == 7; }
  }

  /** The two rotations undo each other, for every count however large. */
  lemma RotationsCancel(data: bv8, count: nat)
    ensures RotateRight(RotateLeft(data, count), count) == data
    ensures RotateLeft(RotateRight(data, count), count) == data
  {
    var n := count % 8;
    ShiftedNarrow(data, n);
    NarrowCancel(data, n);
    ShiftedNarrow((data << n) | (data >> (8 - n)), n);
    ShiftedNarrow((data >> n) | (data << (8 - n)), n);
  }

  // ----- The XOR chain

  /** The bytes the chain reads: table entries and position digits. */
  datatype Keys = Keys(e1: nat, e2: nat, p1: nat, p2: nat)

  predicate Digits(k: Keys) {
    k.e1 < 256 && k.e2 < 256 && k.p1 < 256 && k.p2 < 256
  }

  function Bits(p: nat, mask: bv8): bv8 {
    Low(p) & mask
  }

  function When(on: bool, terms: seq<nat>): seq<nat> {
    if on then terms else []
  }

  function Always(k: Keys): seq<nat> {
    [k.e1, k.e1 * 0x33f, k.e2, k.e1 * k.e2, k.e1 * k.e2 / 0x23df, k.e1 + k.e2 + 0x34fee, k.p1, k.p2]
  }

  function Second(k: Keys): seq<nat> {
    [k.e1 * 0x3423f, k.p1 * 2344, k.e1 * k.e2, k.e1 + k.e2 + 0x343fee, k.p1, k.p2]
  }

  function Third(k: Keys): seq<nat> {
    [k.e1 * 0x3422f, k.p1 + k.p2 + 0x234a, k.e1 * k.e2 * 2, k.e1 + k.e2 + 0x343fee, k.p2]
  }

  function Fourth(k: Keys): seq<nat> {
    [k.e1 * 0x3422f, k.p1 + 33, k.e1 * k.e2 * 2, k.e1 + k.e2 + 0x343fee, k.p2]
  }

  function Fifth(k: Keys): seq<nat> {
    [k.e1 * 0x342f, k.p1 + 31, k.e1 * k.e2 * 2, k.e1 + k.e2 + 0x343fee, k.p2]
  }

  /** The terms that reach the byte, without the quotients by 0x233fedf, which are all zero. */
  function Terms(k: Keys): seq<nat> {
    Always(k)
    + When(Bits(k.p2, 0x31) != 0, Second(k))
    + When(Bits(k.p1, 0x3) != 0, Third(k))
    + When(Bits(k.p1, 0x13) == 0, Fourth(k))
    + When(k.p1 * k.e2 % 0x9 == 1, Fifth(k))
  }

  /** XORing one term after another onto a byte. */
  function Onto(data: bv8, terms: seq<nat>): bv8
    decreases |terms|
  {
    if terms == [] then data else Onto(Xor(data, Low(terms[0])), terms[1..])
  }

  /** The whole chain as one mask byte. */
  function Mask(k: Keys): bv8 {
    Onto(0, Terms(k))
  }

  lemma Unroll1(data: bv8, t: seq<nat>)
    requires |t| >= 1
    ensures Onto(data, t) == Onto(Xor(data, Low(t[0])), t[1..])
  {
  }

  lemma Unroll5(data: bv8, t: seq<nat>)
    requires |t| == 5
    ensures Onto(data, t) == Xor(Xor(Xor(Xor(Xor(data, Low(t[0])), Low(t[1])), Low(t[2])), Low(t[3])), Low(t[4]))
  {
    hide Xor, Low;
    var b1 := Xor(data, Low(t[0]));
    var b2 := Xor(b1, Low(t[1]));
    var b3 := Xor(b2, Low(t[2]));
    var b4 := Xor(b3, Low(t[3]));
    Unroll1(data, t);
    Unroll1(b1, t[1..]);
    Unroll1(b2, t[1..][1..]);
    Unroll1(b3, t[1..][1..][1..]);
    Unroll1(b4, t[1..][1..][1..][1..]);
  }

  lemma Unroll6(data: bv8, t: seq<nat>)
    requires |t| == 6
    ensures Onto(data, t)
         == Xor(Xor(Xor(Xor(Xor(Xor(data, Low(t[0])), Low(t[1])), Low(t[2])), Low(t[3])), Low(t[4])), Low(t[5]))
  {
    hide Xor, Low;
    Unroll1(data, t);
    Unroll5(Xor(data, Low(t[0])), t[1..]);
  }

  lemma Unroll8(data: bv8, t: seq<nat>)
    requires |t| == 8
    ensures Onto(data, t)
         == Xor(Xor(Xor(Xor(Xor(Xor(Xor(Xor(data, Low(t[0])), Low(t[1])), Low(t[2])), Low(t[3])), Low(t[4])),
                Low(t[5])), Low(t[6])), Low(t[7]))
  {
    hide Xor, Low;
    Unroll1(data, t);
    Unroll1(Xor(data, Low(t[0])), t[1..]);
    Unroll6(Xor(Xor(data, Low(t[0])), Low(t[1])), t[1..][1..]);
  }

  lemma ProductBelow(a: nat, b: nat)
    requires a < 256 && b < 256
    ensures a * b <= 65025
  {
    MulAtMost(a, 255, b);
  }

  /** XOR with a quotient by 0x233fedf changes nothing: the product of two bytes is smaller, so the quotient is 0. */
  lemma QuotientsVanish(k: Keys, p: nat)
    requires Digits(k)
    ensures k.e1 * k.e2 / 0x233fedf * p == 0
    ensures forall b :: Xor(b, Low(0)) == b
  {
    ProductBelow(k.e1, k.e2);
    assert k.e1 * k.e2 / 0x233fedf == 0;
    LowMeans(0);
    assert Low(0) == 0;
  }

  lemma {:induction false} OntoConcat(data: bv8, a: seq<nat>, b: seq<nat>)
    ensures Onto(Onto(data, a), b) == Onto(data, a + b)
    decreases |a|
  {
    if a == [] {
      assert a + b == b;
    } else {
      OntoConcat(Xor(data, Low(a[0])), a[1..], b);
      assert (a + b)[1..] == a[1..] + b;
    }
  }

  lemma {:induction false} OntoIsOneMask(data: bv8, terms: seq<nat>)
    ensures Onto(data, terms) == Xor(data, Onto(0, terms))
    decreases |terms|
  {
    hide Xor, Low;
    if terms == [] {
      XorLaws(data, data, data);
    } else {
      var t, rest := Low(terms[0]), terms[1..];
      OntoIsOneMask(Xor(data, t), rest);
      OntoIsOneMask(Xor(0, t), rest);
      XorLaws(data, t, Onto(0, rest));
      XorLaws(t, t, t);
    }
  }

  /** The lines every byte goes through; the four groups after it apply only under their condition. */
  method AlwaysLines(data: bv8, k: Keys) returns (b: bv8)
    requires Digits(k)
    ensures b == Onto(data, Always(k))
  {
    hide Xor, Low;
    b := data;
    Unroll8(data, Always(k));
    b := Xor(b, Low(k.e1));
    b := Xor(b, Low(k.e1 * 0x33f));
    b := Xor(b, Low(k.e2));
    b := Xor(b, Low(k.e1 * k.e2));
    b := Xor(b, Low(k.e1 * k.e2 / 0x23df));
    b := Xor(b, Low(k.e1 + k.e2 + 0x34fee));
    b := Xor(b, Low(k.p1));
    b := Xor(b, Low(k.p2));
  }

  method SecondLines(data: bv8, k: Keys) returns (b: bv8)
    requires Digits(k)
    ensures b == Onto(data, When(Bits(k.p2, 0x31) != 0, Second(k)))
  {
    hide Xor, Low;
    b := data;
    if Bits(k.p2, 0x31) != 0 {
      Unroll6(data, Second(k));
      b := Xor(b, Low(k.e1 * 0x3423f));
      b := Xor(b, Low(k.p1 * 2344));
      b := Xor(b, Low(k.e1 * k.e2));
      QuotientsVanish(k, k.p2);
      b := Xor(b, Low(k.e1 * k.e2 / 0x233fedf * k.p2));
      b := Xor(b, Low(k.e1 + k.e2 + 0x343fee));
      b := Xor(b, Low(k.p1));
      b := Xor(b, Low(k.p2));
    }
  }

  method ThirdLines(data: bv8, k: Keys) returns (b: bv8)
    requires Digits(k)
    ensures b == Onto(data, When(Bits(k.p1, 0x3) != 0, Third(k)))
  {
    hide Xor, Low;
    b := data;
    if Bits(k.p1, 0x3) != 0 {
      Unroll5(data, Third(k));
      b := Xor(b, Low(k.e1 * 0x3422f));
      b := Xor(b, Low(k.p1 + k.p2 + 0x234a));
      b := Xor(b, Low(k.e1 * k.e2 * 2));
      QuotientsVanish(k, k.p2);
      b := Xor(b, Low(k.e1 * k.e2 / 0x233fedf * k.p2));
      b := Xor(b, Low(k.e1 + k.e2 + 0x343fee));
      b := Xor(b, Low(k.p2));
    }
  }

  method FourthLines(data: bv8, k: Keys) returns (b: bv8)
    requires Digits(k)
    ensures b == Onto(data, When(Bits(k.p1, 0x13) == 0, Fourth(k)))
  {
    hide Xor, Low;
    b := data;
    if Bits(k.p1, 0x13) == 0 {
      Unroll5(data, Fourth(k));
      b := Xor(b, Low(k.e1 * 0x3422f));
      b := Xor(b, Low(k.p1 + 33));
      b := Xor(b, Low(k.e1 * k.e2 * 2));
      QuotientsVanish(k, k.p2);
      b := Xor(b, Low(k.e1 * k.e2 / 0x233fedf * k.p2));
      b := Xor(b, Low(k.e1 + k.e2 + 0x343fee));
      b := Xor(b, Low(k.p2));
    }
  }

  method FifthLines(data: bv8, k: Keys) returns (b: bv8)
    requires Digits(k)
    ensures b == Onto(data, When(k.p1 * k.e2 % 0x9 == 1, Fifth(k)))
  {
    hide Xor, Low;
    b := data;
    if k.p1 * k.e2 % 0x9 == 1 {
      Unroll5(data, Fifth(k));
      b := Xor(b, Low(k.e1 * 0x342f));
      b := Xor(b, Low(k.p1 + 31));
      b := Xor(b, Low(k.e1 * k.e2 * 2));
      QuotientsVanish(k, k.p1);
      b := Xor(b, Low(k.e1 * k.e2 / 0x233fedf * k.p1));
      b := Xor(b, Low(k.e1 + k.e2 + 0x343fee));
      b := Xor(b, Low(k.p2));
    }
  }

  /** The chain, line by line, of either direction: its net effect is one mask byte that does not depend on the data. */
  method XorChain(data: bv8, k: Keys) returns (b: bv8)
    requires Digits(k)
    ensures b == Xor(data, Mask(k))
  {
    hide Xor, Low;
    b := AlwaysLines(data, k);
    ghost var done := Always(k);
    OntoConcat(data, done, When(Bits(k.p2, 0x31) != 0, Second(k)));
    b := SecondLines(b, k);
    done := done + When(Bits(k.p2, 0x31) != 0, Second(k));
    OntoConcat(data, done, When(Bits(k.p1, 0x3) != 0, Third(k)));
    b := ThirdLines(b, k);
    done := done + When(Bits(k.p1, 0x3) != 0, Third(k));
    OntoConcat(data, done, When(Bits(k.p1, 0x13) == 0, Fourth(k)));
    b := FourthLines(b, k);
    done := done + When(Bits(k.p1, 0x13) == 0, Fourth(k));
    OntoConcat(data, done, When(k.p1 * k.e2 % 0x9 == 1, Fifth(k)));
    b := FifthLines(b, k);
    OntoIsOneMask(data, Terms(k));
  }

  ghost predicate FitInt(xs: seq<nat>) {
    forall i :: 0 <= i < |xs| ==> xs[i] < 0x8000_0000
  }

  function Turn(k: Keys): nat {
    k.e1 + k.e2 + 0x34fee
  }

  /** What else is computed: the quotient lines, the last condition, the rotation count, and the parts of all terms. */
  function Intermediates(k: Keys): seq<nat> {
    var q := k.e1 * k.e2 / 0x233fedf;
    [q, q * k.p1, q * k.p2, k.e1 * k.e2, k.p1 * k.e2, k.p1 * k.e2 % 0x9, k.e1 + k.e2, k.p1 + k.p2, Turn(k)]
  }

  /** No expression of the chain leaves the range of a 32-bit `int`. */
  lemma TermsFitInt(k: Keys)
    requires Digits(k)
    ensures FitInt(Always(k)) && FitInt(Second(k)) && FitInt(Third(k)) && FitInt(Fourth(k)) && FitInt(Fifth(k))
    ensures FitInt(Terms(k)) && FitInt(Intermediates(k))
  {
    hide Low, Bits;
    ProductBelow(k.e1, k.e2);
    ProductBelow(k.p1, k.e2);
    assert k.e1 * k.e2 / 0x233fedf == 0;
  }

  // ----- Streams

  datatype Mode = Encrypting | Decrypting

  function Opposite(mode: Mode): Mode {
    if mode.Encrypting? then Decrypting else Encrypting
  }

  /** The keys in force at position c of the stream, c being the two-digit base-256 number pos1 + 256 * pos2. */
  function KeysAt(t1: Table, t2: Table, c: nat): (k: Keys)
    requires c < 65536
    ensures Digits(k)
  {
    Keys(t1[c % 256] as nat, t2[c / 256] as nat, c % 256, c / 256)
  }

  function CryptedByte(mode: Mode, k: Keys, data: bv8): bv8
    requires Digits(k)
  {
    match mode
    case Encrypting => RotateLeft(Xor(data, Mask(k)), Turn(k))
    case Decrypting => Xor(RotateRight(data, Turn(k)), Mask(k))
  }

  lemma ByteRecovered(mode: Mode, k: Keys, data: bv8)
    requires Digits(k)
    ensures CryptedByte(Opposite(mode), k, CryptedByte(mode, k, data)) == data
  {
    hide Xor, RotateLeft, RotateRight, Mask;
    var m := Mask(k);
    RotationsCancel(Xor(data, m), Turn(k));
    RotationsCancel(data, Turn(k));
    XorLaws(data, m, m);
    XorLaws(RotateRight(data, Turn(k)), m, m);
  }

  /** What becomes of a byte at a position of the stream. */
  type Cipher = (nat, bv8) -> bv8

  function CipherOf(mode: Mode, t1: Table, t2: Table): Cipher {
    (c: nat, data: bv8) => CryptedByte(mode, KeysAt(t1, t2, c % 65536), data)
  }

  /** One call over a whole buffer, from position c. */
  function Streamed(f: Cipher, c: nat, data: seq<bv8>): (r: seq<bv8>)
    ensures |r| == |data|
  {
    seq(|data|, i requires 0 <= i < |data| => f((c + i) % 65536, data[i]))
  }

  function Flatten(chunks: seq<seq<bv8>>): seq<bv8> {
    if chunks == [] then [] else chunks[0] + Flatten(chunks[1..])
  }

  lemma FlattenCons(chunk: seq<bv8>, chunks: seq<seq<bv8>>)
    ensures Flatten([chunk] + chunks) == chunk + Flatten(chunks)
  {
    assert ([chunk] + chunks)[1..] == chunks;
  }

  lemma FlattenNone()
    ensures Flatten([]) == []
  {
  }

  /** Successive moving calls, one per chunk. */
  function StreamedChunks(f: Cipher, c: nat, chunks: seq<seq<bv8>>): seq<seq<bv8>>
    decreases |chunks|
  {
    if chunks == [] then []
    else [Streamed(f, c, chunks[0])] + StreamedChunks(f, (c + |chunks[0]|) % 65536, chunks[1..])
  }

  /** The position after moving calls on all the chunks. */
  function EndPosition(c: nat, chunks: seq<seq<bv8>>): nat
    decreases |chunks|
  {
    if chunks == [] then c else EndPosition((c + |chunks[0]|) % 65536, chunks[1..])
  }

  lemma StreamedAt(f: Cipher, c: nat, data: seq<bv8>, i: nat)
    requires i < |data|
    ensures Streamed(f, c, data)[i] == f((c + i) % 65536, data[i])
  {
  }

  lemma PositionsAdd(c: nat, k: nat, i: nat)
    ensures ((c + k) % 65536 + i) % 65536 == (c + (k + i)) % 65536
  {
  }

  lemma StreamedSplit(f: Cipher, c: nat, a: seq<bv8>, b: seq<bv8>)
    ensures Streamed(f, c, a + b) == Streamed(f, c, a) + Streamed(f, (c + |a|) % 65536, b)
  {
    hide Streamed;
    var whole := Streamed(f, c, a + b);
    var parts := Streamed(f, c, a) + Streamed(f, (c + |a|) % 65536, b);
    forall i: nat | i < |whole| ensures whole[i] == parts[i] {
      StreamedAt(f, c, a + b, i);
      if i < |a| {
        StreamedAt(f, c, a, i);
      } else {
        StreamedAt(f, (c + |a|) % 65536, b, i - |a|);
        PositionsAdd(c, |a|, i - |a|);
      }
    }
  }

  lemma StreamedNone(f: Cipher, start: nat)
    ensures Streamed(f, start, []) == []
  {
  }

  /** Chunking is invisible: the calls together produce what one call on the whole stream would. */
  lemma {:induction false} ChunkingInvisible(f: Cipher, c: nat, chunks: seq<seq<bv8>>)
    requires c < 65536
    ensures Flatten(StreamedChunks(f, c, chunks)) == Streamed(f, c, Flatten(chunks))
    ensures EndPosition(c, chunks) == (c + |Flatten(chunks)|) % 65536
    decreases |chunks|
  {
    hide Flatten, Streamed;
    FlattenNone();
    if chunks == [] {
      StreamedNone(f, c);
    } else {
      var c' := (c + |chunks[0]|) % 65536;
      ChunkingInvisible(f, c', chunks[1..]);
      StreamedSplit(f, c, chunks[0], Flatten(chunks[1..]));
      FlattenCons(Streamed(f, c, chunks[0]), StreamedChunks(f, c', chunks[1..]));
      FlattenCons(chunks[0], chunks[1..]);
      assert chunks == [chunks[0]] + chunks[1..];
    }
  }

  /** `back` undoes `there` at every position. */
  ghost predicate Undoes(back: Cipher, there: Cipher) {
    forall c: nat, data: bv8 :: c < 65536 ==> back(c, there(c, data)) == data
  }

  lemma StreamedBack(there: Cipher, back: Cipher, c: nat, data: seq<bv8>)
    requires Undoes(back, there)
    ensures Streamed(back, c, Streamed(there, c, data)) == data
  {
    forall i: nat | i < |data| ensures Streamed(back, c, Streamed(there, c, data))[i] == data[i] {
      var p := (c + i) % 65536;
      assert p < 65536 && back(p, there(p, data[i])) == data[i];
    }
  }

  lemma RechunkedBack(there: Cipher, back: Cipher, c: nat, sent: seq<seq<bv8>>, received: seq<seq<bv8>>)
    requires c < 65536 && Undoes(back, there)
    requires Flatten(received) == Flatten(StreamedChunks(there, c, sent))
    ensures Flatten(StreamedChunks(back, c, received)) == Flatten(sent)
    ensures EndPosition(c, received) == EndPosition(c, sent)
  {
    hide Streamed, StreamedChunks, Flatten, EndPosition, Undoes;
    ChunkingInvisible(there, c, sent);
    ChunkingInvisible(back, c, received);
    StreamedBack(there, back, c, Flatten(sent));
  }

  lemma CipherAt(mode: Mode, t1: Table, t2: Table, c: nat, data: bv8)
    requires c < 65536
    ensures CipherOf(mode, t1, t2)(c, data) == CryptedByte(mode, KeysAt(t1, t2, c), data)
  {
    hide CryptedByte, KeysAt, Digits;
  }

  lemma DirectionsUndo(mode: Mode, t1: Table, t2: Table)
    ensures Undoes(CipherOf(Opposite(mode), t1, t2), CipherOf(mode, t1, t2))
  {
    hide CipherOf, CryptedByte, KeysAt, Digits, Opposite;
    forall c: nat, data: bv8 | c < 65536
      ensures CipherOf(Opposite(mode), t1, t2)(c, CipherOf(mode, t1, t2)(c, data)) == data
    {
      var k := KeysAt(t1, t2, c);
      CipherAt(mode, t1, t2, c, data);
      CipherAt(Opposite(mode), t1, t2, c, CryptedByte(mode, k, data));
      ByteRecovered(mode, k, data);
    }
  }

  /** Decrypting undoes encrypting and encrypting undoes decrypting, from any position, with any tables. */
  lemma CallRecovered(mode: Mode, t1: Table, t2: Table, c: nat, data: seq<bv8>)
    ensures Streamed(CipherOf(Opposite(mode), t1, t2), c, Streamed(CipherOf(mode, t1, t2), c, data)) == data
  {
    hide CipherOf;
    DirectionsUndo(mode, t1, t2);
    StreamedBack(CipherOf(mode, t1, t2), CipherOf(Opposite(mode), t1, t2), c, data);
  }

  /** Sender and receiver starting alike: however the sender cut the stream into calls and however the receiver cuts
      what arrives, the receiver gets the plaintext and both end at the same position. */
  lemma StreamRecovered(mode: Mode, t1: Table, t2: Table, c: nat, sent: seq<seq<bv8>>, received: seq<seq<bv8>>)
    requires c < 65536
    requires Flatten(received) == Flatten(StreamedChunks(CipherOf(mode, t1, t2), c, sent))
    ensures Flatten(StreamedChunks(CipherOf(Opposite(mode), t1, t2), c, received)) == Flatten(sent)
    ensures EndPosition(c, received) == EndPosition(c, sent)
  {
    hide CipherOf;
    DirectionsUndo(mode, t1, t2);
    RechunkedBack(CipherOf(mode, t1, t2), CipherOf(Opposite(mode), t1, t2), c, sent, received);
  }

  // ----- Positions over whole runs

  /** A call in either direction: its bytes, and whether it moves the position. */
  datatype Call = Call(mode: Mode, data: seq<bv8>, move: bool)

  /** The two digits after a call on so many bytes. */
  function CallStep(c: nat, length: nat, move: bool): nat {
    if move then (c + length) % 65536 else c
  }

  function CallRun(c: nat, calls: seq<Call>): nat
    decreases |calls|
  {
    if calls == [] then c else CallRun(CallStep(c, |calls[0].data|, calls[0].move), calls[1..])
  }

  /** What the calls leave in their buffers. */
  function CallResults(t1: Table, t2: Table, c: nat, calls: seq<Call>): seq<seq<bv8>>
    decreases |calls|
  {
    if calls == [] then []
    else
      var rest := CallResults(t1, t2, CallStep(c, |calls[0].data|, calls[0].move), calls[1..]);
      [Streamed(CipherOf(calls[0].mode, t1, t2), c, calls[0].data)] + rest
  }

  function MovedBytes(calls: seq<Call>): nat {
    if calls == [] then 0 else (if calls[0].move then |calls[0].data| else 0) + MovedBytes(calls[1..])
  }

  /** After any run the position is its start plus the bytes of the moving calls, modulo 65536. */
  lemma {:induction false} PositionCountsMovedBytes(c: nat, calls: seq<Call>)
    requires c < 65536
    ensures CallRun(c, calls) == (c + MovedBytes(calls)) % 65536
    decreases |calls|
  {
    if calls == [] {
    } else {
      PositionCountsMovedBytes(CallStep(c, |calls[0].data|, calls[0].move), calls[1..]);
    }
  }

  // ----- Key schedule

  /** The key polynomial iterated without any reduction. */
  function Iterate(a: nat, b: nat, c: nat, first: nat, i: nat): nat {
    if i == 0 then first
    else var n := Iterate(a, b, c, first, i - 1); a * n * n + b * n + c
  }

  /** Reducing the iterate at every step or only once at the end is the same. */
  lemma ReduceOnce(a: nat, b: nat, c: nat, n: nat)
    ensures (a * (n % 256) * (n % 256) + b * (n % 256) + c) % 256 == (a * n * n + b * n + c) % 256
  {
    var q, r := n / 256, n % 256;
    ModOfProduct(a, 0, r, q, 256);
    ModOfProduct(b, 0, r, q, 256);
    ModOfProduct(a * r, a * q, r, q, 256);
    var k := (a * r * q + a * q * r + 256 * (a * q * q)) + b * q;
    assert a * n == a * r + 256 * (a * q) && b * n == b * r + 256 * (b * q);
    SameRemainder(a * r * r + b * r + c, k, 256);
  }

  /** For byte-valued keys no part of the polynomial leaves the range of `int`. */
  lemma KeyFitsInt(a: nat, b: nat, c: nat, n: nat)
    requires a < 256 && b < 256 && c < 256 && n < 256
    ensures FitInt([a * n, a * n * n, b * n, a * n * n + b * n, a * n * n + b * n + c])
  {
    ProductBelow(a, n);
    ProductBelow(b, n);
    MulAtMost(a * n, 65025, n);
  }

  lemma IterateStart(a: nat, b: nat, c: nat, first: nat)
    ensures Iterate(a, b, c, first, 0) == first
  {
  }

  lemma IterateStep(a: nat, b: nat, c: nat, first: nat, i: nat, code: nat)
    requires code == Iterate(a, b, c, first, i) % 256
    ensures (a * code * code + b * code + c) % 256 == Iterate(a, b, c, first, i + 1) % 256
  {
    ReduceOnce(a, b, c, Iterate(a, b, c, first, i));
  }

  /** Entry i is the i-th unreduced iterate, reduced once. */
  function Generated(a: nat, b: nat, c: nat, first: nat): Table {
    seq(256, i requires 0 <= i < 256 => (Iterate(a, b, c, first, i) % 256) as bv8)
  }

  /** One push pass: from index `from`, every fourth entry of table 1 absorbs the entry two further on in table 2. */
  predicate Touched(i: nat, from: nat, count: nat) {
    from <= i < from + 4 * count && (i - from) % 4 == 0
  }

  function Pushed(t1: Table, t2: Table, from: nat, count: nat): (r: Table)
    requires from + 4 * count <= 254
  {
    seq(256, i requires 0 <= i < 256 => if Touched(i, from, count) then Xor(t1[i], t2[i + 2]) else t1[i])
  }

  /** A pass undoes itself: push_stack3 cancels push_stack2, and each pop undoes its push. */
  lemma PassUndoesItself(t1: Table, t2: Table, from: nat, count: nat)
    requires from + 4 * count <= 254
    ensures Pushed(Pushed(t1, t2, from, count), t2, from, count) == t1
  {
    hide Xor;
    forall i: nat | i < 256 ensures Pushed(Pushed(t1, t2, from, count), t2, from, count)[i] == t1[i] {
      if Touched(i, from, count) { XorLaws(t1[i], t2[i + 2], t2[i + 2]); }
    }
  }

  lemma PassesCommute(t1: Table, t2: Table, from: nat, count: nat, from': nat, count': nat)
    requires from + 4 * count <= 254 && from' + 4 * count' <= 254
    ensures Pushed(Pushed(t1, t2, from, count), t2, from', count')
         == Pushed(Pushed(t1, t2, from', count'), t2, from, count)
  {
  }

  // ----- The object

  const KEY_A1 := 0x5a
  const KEY_B1 := 0x24
  const KEY_C1 := 0x11
  const KEY_FST1 := 0xfe
  const KEY_A2 := 0xa1
  const KEY_B2 := 0x88
  const KEY_C2 := 0x12
  const KEY_FST2 := 0xfc

  lemma OneByte(mode: Mode, t1: Table, t2: Table, c: nat, data: bv8)
    requires c < 65536
    ensures var k := KeysAt(t1, t2, c);
      CipherOf(mode, t1, t2)(c, data) == match mode {
        case Encrypting => RotateLeft(Xor(data, Mask(k)), Turn(k))
        case Decrypting => Xor(RotateRight(data, Turn(k)), Mask(k))
      }
  {
    hide Xor, RotateLeft, RotateRight, Mask, KeysAt, CipherOf, Turn, Digits;
    CipherAt(mode, t1, t2, c, data);
  }

  lemma FirstCall(c: nat)
    requires c < 65536
    ensures CallStep(c, 0, true) == c
  {
  }

  lemma NextCall(c: nat, k: nat, i: nat)
    ensures CallStep(CallStep(c, k, true), i, true) == CallStep(c, k + i, true)
  {
    PositionsAdd(c, k, i);
  }

  lemma StayingCall(c: nat, length: nat)
    ensures CallStep(c, length, false) == c
  {
  }

  lemma StreamedSnoc(f: Cipher, start: nat, was: seq<bv8>, i: nat)
    requires i < |was|
    ensures (Streamed(f, start, was[..i]) + was[i..])[i] == was[i]
    ensures (Streamed(f, start, was[..i]) + was[i..])[i := f(CallStep(start, i, true), was[i])]
         == Streamed(f, start, was[..i + 1]) + was[i + 1..]
  {
  }

  class MessageEncrypt {
    var pos1: nat
    var pos2: nat
    const encrypt1: array<bv8>
    const encrypt2: array<bv8>

    ghost predicate Valid()
      reads this
    {
      encrypt1.Length == 256 && encrypt2.Length == 256 && encrypt1 != encrypt2 && pos1 < 256 && pos2 < 256
    }

    ghost function Position(): nat
      reads this
    {
      pos1 + 256 * pos2
    }

    ghost function CipherNow(mode: Mode): Cipher
      reads this, encrypt1, encrypt2
      requires Valid()
    {
      CipherOf(mode, encrypt1[..], encrypt2[..])
    }

    constructor ()
      ensures Valid() && fresh(encrypt1) && fresh(encrypt2) && Position() == 0
      ensures encrypt2[..] == Generated(KEY_A2, KEY_B2, KEY_C2, KEY_FST2)
      ensures encrypt1[..] == Pushed(Generated(KEY_A1, KEY_B1, KEY_C1, KEY_FST1), encrypt2[..], 1, 10)
    {
      pos1, pos2 := 0, 0;
      encrypt1, encrypt2 := new bv8[256], new bv8[256];
      new;
      InitKey(KEY_A1, KEY_B1, KEY_C1, KEY_FST1, KEY_A2, KEY_B2, KEY_C2, KEY_FST2);
    }

    /** One generating loop of InitKey; `code` stays an unsigned char. */
    method Generate(table: array<bv8>, a: nat, b: nat, c: nat, first: nat)
      requires table.Length == 256 && a < 256 && b < 256 && c < 256 && first < 256
      modifies table
      ensures table[..] == Generated(a, b, c, first)
    {
      hide Iterate;
      var code := first;
      var i := 0;
      assert Iterate(a, b, c, first, 0) == first by { IterateStart(a, b, c, first); }
      while i < 256
        invariant 0 <= i <= 256 && code < 256 && code == Iterate(a, b, c, first, i) % 256
        invariant forall j :: 0 <= j < i ==> table[j] == (Iterate(a, b, c, first, j) % 256) as bv8
      {
        table[i] := code as bv8;
        IterateStep(a, b, c, first, i, code);
        code := (a * code * code + b * code + c) % 256;
        i := i + 1;
      }
    }

    /** The loop of push_stack1 (from 1, 10 times), push_stack2 and push_stack3 (both from 50, 5 times). */
    method PushPass(from: nat, count: nat)
      requires Valid() && from + 4 * count <= 254
      modifies encrypt1
      ensures encrypt1[..] == Pushed(old(encrypt1[..]), encrypt2[..], from, count)
    {
      hide Xor;
      var i := 0;
      while i < count
        invariant i <= count
        invariant encrypt1[..] == Pushed(old(encrypt1[..]), encrypt2[..], from, i)
      {
        ghost var before := encrypt1[..];
        encrypt1[i * 4 + from] := Xor(encrypt1[i * 4 + from], encrypt2[i * 4 + from + 2]);
        assert encrypt1[..] == before[i * 4 + from := encrypt1[i * 4 + from]];
        i := i + 1;
      }
    }

    /** InitKey: the net effect on table 1 after generation is the first pass alone; table 2 is left as generated. */
    method InitKey(a1: nat, b1: nat, c1: nat, fst1: nat, a2: nat, b2: nat, c2: nat, fst2: nat)
      requires Valid()
      requires a1 < 256 && b1 < 256 && c1 < 256 && fst1 < 256 && a2 < 256 && b2 < 256 && c2 < 256 && fst2 < 256
      modifies encrypt1, encrypt2
      ensures encrypt2[..] == Generated(a2, b2, c2, fst2)
      ensures encrypt1[..] == Pushed(Generated(a1, b1, c1, fst1), encrypt2[..], 1, 10)
    {
      Generate(encrypt1, a1, b1, c1, fst1);
      Generate(encrypt2, a2, b2, c2, fst2);
      PushPass(1, 10);
      PushPass(50, 5);
      PushPass(50, 5);
      PassUndoesItself(Pushed(Generated(a1, b1, c1, fst1), encrypt2[..], 1, 10), encrypt2[..], 50, 5);
    }

    /** The keys the current position selects. */
    function KeysNow(): (k: Keys)
      reads this, encrypt1, encrypt2
      requires Valid()
      ensures k == KeysAt(encrypt1[..], encrypt2[..], Position()) && Digits(k)
    {
      assert (pos1 + 256 * pos2) % 256 == pos1 && (pos1 + 256 * pos2) / 256 == pos2;
      Keys(encrypt1[pos1] as nat, encrypt2[pos2] as nat, pos1, pos2)
    }

    /** The two-digit counter carries from pos1 into pos2 and wraps after 65536 bytes. */
    method Advance()
      requires Valid()
      modifies this
      ensures Valid() && Position() == (old(Position()) + 1) % 65536
    {
      pos1 := pos1 + 1;
      if pos1 >= 256 {
        pos1 := 0;
        pos2 := pos2 + 1;
        if pos2 >= 256 {
          pos2 := 0;
        }
      }
    }

    method EncryptByte(data: bv8) returns (r: bv8)
      requires Valid()
      ensures r == CipherNow(Encrypting)(Position(), data)
    {
      hide Xor, RotateLeft, RotateRight, Mask, KeysAt, CipherOf, Turn, Digits;
      var k := KeysNow();
      OneByte(Encrypting, encrypt1[..], encrypt2[..], Position(), data);
      var b := XorChain(data, k);
      r := RotateLeft(b, Turn(k));
    }

    method DecryptByte(data: bv8) returns (r: bv8)
      requires Valid()
      ensures r == CipherNow(Decrypting)(Position(), data)
    {
      hide Xor, RotateLeft, RotateRight, Mask, KeysAt, CipherOf, Turn, Digits;
      var k := KeysNow();
      OneByte(Decrypting, encrypt1[..], encrypt2[..], Position(), data);
      var b := RotateRight(data, Turn(k));
      r := XorChain(b, k);
    }

    /** One pass of the loop of Encrypt. */
    method EncryptNext(buffer: array<bv8>, i: nat)
      requires Valid() && i < buffer.Length && buffer != encrypt1 && buffer != encrypt2
      modifies this, buffer
      ensures Valid() && CipherNow(Encrypting) == old(CipherNow(Encrypting))
      ensures Position() == CallStep(old(Position()), 1, true)
      ensures buffer[..] == old(buffer[..])[i := old(CipherNow(Encrypting)(Position(), buffer[i]))]
    {
      hide CipherOf;
      ghost var before := buffer[..];
      buffer[i] := EncryptByte(buffer[i]);
      assert buffer[..] == before[i := buffer[i]];
      Advance();
    }

    /** A negative length does nothing; a call that does not move ends where it began. */
    method Encrypt(buffer: array<bv8>, length: int, move: bool)
      requires Valid() && length <= buffer.Length && buffer != encrypt1 && buffer != encrypt2
      modifies this, buffer
      ensures Valid()
      ensures var n := if length < 0 then 0 else length;
        && buffer[..] == Streamed(old(CipherNow(Encrypting)), old(Position()), old(buffer[..n])) + old(buffer[n..])
        && Position() == CallStep(old(Position()), n, move)
    {
      hide CryptedByte, CipherOf, Streamed, Mask, KeysAt, CallStep;
      StreamedNone(CipherNow(Encrypting), Position());
      ghost var f, start, was := CipherNow(Encrypting), Position(), buffer[..];
      var oldPos1, oldPos2 := pos1, pos2;
      var i := 0;
      FirstCall(start);
      while i < length
        invariant 0 <= i && (i <= length || i == 0) && Valid() && Position() == CallStep(start, i, true)
        invariant CipherNow(Encrypting) == f
        invariant buffer[..] == Streamed(f, start, was[..i]) + was[i..]
      {
        StreamedSnoc(f, start, was, i);
        NextCall(start, i, 1);
        EncryptNext(buffer, i);
        i := i + 1;
      }
      if !move {
        pos1, pos2 := oldPos1, oldPos2;
      }
      StayingCall(start, if length < 0 then 0 else length);
    }

    /** One pass of the loop of Decrypt. */
    method DecryptNext(buffer: array<bv8>, i: nat)
      requires Valid() && i < buffer.Length && buffer != encrypt1 && buffer != encrypt2
      modifies this, buffer
      ensures Valid() && CipherNow(Decrypting) == old(CipherNow(Decrypting))
      ensures Position() == CallStep(old(Position()), 1, true)
      ensures buffer[..] == old(buffer[..])[i := old(CipherNow(Decrypting)(Position(), buffer[i]))]
    {
      hide CipherOf;
      ghost var before := buffer[..];
      buffer[i] := DecryptByte(buffer[i]);
      assert buffer[..] == before[i := buffer[i]];
      Advance();
    }

    method Decrypt(buffer: array<bv8>, length: int, move: bool)
      requires Valid() && length <= buffer.Length && buffer != encrypt1 && buffer != encrypt2
      modifies this, buffer
      ensures Valid()
      ensures var n := if length < 0 then 0 else length;
        && buffer[..] == Streamed(old(CipherNow(Decrypting)), old(Position()), old(buffer[..n])) + old(buffer[n..])
        && Position() == CallStep(old(Position()), n, move)
    {
      hide CryptedByte, CipherOf, Streamed, Mask, KeysAt, CallStep;
      StreamedNone(CipherNow(Decrypting), Position());
      ghost var f, start, was := CipherNow(Decrypting), Position(), buffer[..];
      var oldPos1, oldPos2 := pos1, pos2;
      var i := 0;
      FirstCall(start);
      while i < length
        invariant 0 <= i && (i <= length || i == 0) && Valid() && Position() == CallStep(start, i, true)
        invariant CipherNow(Decrypting) == f
        invariant buffer[..] == Streamed(f, start, was[..i]) + was[i..]
      {
        StreamedSnoc(f, start, was, i);
        NextCall(start, i, 1);
        DecryptNext(buffer, i);
        i := i + 1;
      }
      if !move {
        pos1, pos2 := oldPos1, oldPos2;
      }
      StayingCall(start, if length < 0 then 0 else length);
    }
  }

  // ----- Objects at work

  /** One call on a buffer of its own. */
  method OneCall(e: MessageEncrypt, mode: Mode, data: seq<bv8>, move: bool) returns (result: seq<bv8>)
    requires e.Valid()
    modifies e
    ensures e.Valid() && e.Position() == CallStep(old(e.Position()), |data|, move)
    ensures result == Streamed(old(e.CipherNow(mode)), old(e.Position()), data)
  {
    hide CipherOf, Streamed;
    var buffer := new bv8[|data|](i requires 0 <= i < |data| => data[i]);
    assert buffer[..] == buffer[..|data|] == data && buffer[|data|..] == [];
    match mode {
      case Encrypting => e.Encrypt(buffer, |data|, move);
      case Decrypting => e.Decrypt(buffer, |data|, move);
    }
    result := buffer[..];
  }

  lemma ChunksUnfold(f: Cipher, c: nat, chunks: seq<seq<bv8>>)
    ensures chunks == [] ==> StreamedChunks(f, c, chunks) == [] && EndPosition(c, chunks) == c
    ensures chunks != [] ==> var c' := CallStep(c, |chunks[0]|, true);
      && StreamedChunks(f, c, chunks) == [Streamed(f, c, chunks[0])] + StreamedChunks(f, c', chunks[1..])
      && EndPosition(c, chunks) == EndPosition(c', chunks[1..])
  {
  }

  /** A stream sent in chunks, each with a moving call. */
  method CryptChunks(e: MessageEncrypt, mode: Mode, chunks: seq<seq<bv8>>) returns (results: seq<seq<bv8>>)
    requires e.Valid()
    modifies e
    ensures e.Valid() && e.Position() == EndPosition(old(e.Position()), chunks)
    ensures results == StreamedChunks(old(e.CipherNow(mode)), old(e.Position()), chunks)
  {
    hide CipherOf, Streamed, StreamedChunks, EndPosition, CallStep;
    ghost var f, start := e.CipherNow(mode), e.Position();
    results := [];
    assert chunks[0..] == chunks;
    for i := 0 to |chunks|
      invariant e.Valid() && e.CipherNow(mode) == f
      invariant EndPosition(e.Position(), chunks[i..]) == EndPosition(start, chunks)
      invariant results + StreamedChunks(f, e.Position(), chunks[i..]) == StreamedChunks(f, start, chunks)
    {
      ChunksUnfold(f, e.Position(), chunks[i..]);
      assert chunks[i..][0] == chunks[i] && chunks[i..][1..] == chunks[i + 1..];
      var result := OneCall(e, mode, chunks[i], true);
      results := results + [result];
    }
    ChunksUnfold(f, e.Position(), chunks[|chunks|..]);
    assert results + [] == results;
  }

  /** Any calls at all, in either direction, moving or not. */
  method RunCalls(e: MessageEncrypt, calls: seq<Call>) returns (results: seq<seq<bv8>>)
    requires e.Valid()
    modifies e
    ensures e.Valid() && e.Position() == (old(e.Position()) + MovedBytes(calls)) % 65536
    ensures results == CallResults(old(e.encrypt1[..]), old(e.encrypt2[..]), old(e.Position()), calls)
  {
    hide CipherOf, Streamed;
    ghost var t1: Table, t2: Table, start := e.encrypt1[..], e.encrypt2[..], e.Position();
    results := [];
    for i := 0 to |calls|
      invariant e.Valid() && e.encrypt1[..] == t1 && e.encrypt2[..] == t2
      invariant CallRun(e.Position(), calls[i..]) == CallRun(start, calls)
      invariant results + CallResults(t1, t2, e.Position(), calls[i..]) == CallResults(t1, t2, start, calls)
    {
      assert calls[i..][1..] == calls[i + 1..];
      var result := OneCall(e, calls[i].mode, calls[i].data, calls[i].move);
      results := results + [result];
    }
    assert results + [] == results;
    PositionCountsMovedBytes(start, calls);
  }

  /** The stream cut anew, into pieces of the given lengths and what is left. */
  function Cut(s: seq<bv8>, lengths: seq<nat>): seq<seq<bv8>>
    decreases |lengths|
  {
    if lengths == [] then [s]
    else var n := if lengths[0] < |s| then lengths[0] else |s|; [s[..n]] + Cut(s[n..], lengths[1..])
  }

  lemma {:induction false} CutKeepsAll(s: seq<bv8>, lengths: seq<nat>)
    ensures Flatten(Cut(s, lengths)) == s
    decreases |lengths|
  {
    hide Flatten;
    FlattenNone();
    if lengths == [] {
      FlattenCons(s, []);
      assert [s] + [] == [s];
    } else {
      var n := if lengths[0] < |s| then lengths[0] else |s|;
      CutKeepsAll(s[n..], lengths[1..]);
      FlattenCons(s[..n], Cut(s[n..], lengths[1..]));
      assert s[..n] + s[n..] == s;
    }
  }

  /** Two parties: whatever chunks one sends, and however the bytes arrive, the other gets the plaintext, and both are
      again at the same position. */
  method Exchange(sender: MessageEncrypt, receiver: MessageEncrypt, sent: seq<seq<bv8>>, lengths: seq<nat>)
    returns (plain: seq<seq<bv8>>)
    requires sender.Valid() && receiver.Valid() && sender != receiver
    requires sender.encrypt1[..] == receiver.encrypt1[..] && sender.encrypt2[..] == receiver.encrypt2[..]
    requires sender.Position() == receiver.Position()
    modifies sender, receiver
    ensures sender.Valid() && receiver.Valid() && sender.Position() == receiver.Position()
    ensures Flatten(plain) == Flatten(sent)
  {
    hide CipherOf, Streamed, StreamedChunks, EndPosition, Cut;
    ghost var start := sender.Position();
    var wire := CryptChunks(sender, Encrypting, sent);
    var arrived := Cut(Flatten(wire), lengths);
    CutKeepsAll(Flatten(wire), lengths);
    plain := CryptChunks(receiver, Decrypting, arrived);
    StreamRecovered(Encrypting, sender.encrypt1[..], sender.encrypt2[..], start, sent, arrived);
  }
}
