/** Which bytes MessageEncrypt produces: the mask in reduced form, the rotation, the key tables (MessageEncrypt.cpp). */
module ScramblerLaws {
  import opened Arith
  import opened Scrambler

  // ----- Residues

  /** A number modulo 256. */
  function Byte(x: nat): bv8 {
    (x % 256) as bv8
  }

  lemma LowIsByte(x: nat)
    ensures Low(x) == Byte(x)
  {
    hide Low;
    LowMeans(x);
  }

  /** Only the factor's residue counts. */
  lemma LowOfProduct(x: nat, factor: nat, k: nat, residue: nat)
    requires factor == residue + 256 * k
    ensures Low(x * factor) == Byte(residue * x)
  {
    hide Low;
    LowIsByte(x * factor);
    assert x * factor == residue * x + 256 * (k * x);
    SameRemainder(residue * x, k * x, 256);
  }

  lemma LowOfSum(x: nat, k: nat)
    ensures Low(x + 256 * k) == Byte(x)
  {
    hide Low;
    LowIsByte(x + 256 * k);
    SameRemainder(x, k, 256);
  }

  // ----- The conditions, arithmetically

  lemma BitUnfolds(x: nat, n: nat)
    requires 0 < n
    ensures LowBits(x, n) == (LowBits(x / 2, n - 1) << 1) | (if x % 2 == 1 then 1 else 0)
  {
  }

  /** Six bits read off after r, the last one lowest. */
  function SixOf(r: bv8, b5: bool, b4: bool, b3: bool, b2: bool, b1: bool, b0: bool): bv8 {
    ((((((((((((r << 1) | (if b5 then 1 else 0)) << 1) | (if b4 then 1 else 0)) << 1)
      | (if b3 then 1 else 0)) << 1) | (if b2 then 1 else 0)) << 1) | (if b1 then 1 else 0)) << 1)
      | (if b0 then 1 else 0))
  }

  lemma SixBits(p: nat)
    ensures Low(p) == SixOf(LowBits(p / 64, 2), p / 32 % 2 == 1, p / 16 % 2 == 1, p / 8 % 2 == 1, p / 4 % 2 == 1,
                            p / 2 % 2 == 1, p % 2 == 1)
  {
    hide LowBits;
    BitUnfolds(p, 8);
    BitUnfolds(p / 2, 7);
    BitUnfolds(p / 4, 6);
    BitUnfolds(p / 8, 5);
    BitUnfolds(p / 16, 4);
    BitUnfolds(p / 32, 3);
  }

  lemma MaskedBits(r: bv8, b5: bool, b4: bool, b3: bool, b2: bool, b1: bool, b0: bool)
    ensures SixOf(r, b5, b4, b3, b2, b1, b0) & 0x31 != 0 <==> b0 || b4 || b5
    ensures SixOf(r, b5, b4, b3, b2, b1, b0) & 0x3 != 0 <==> b0 || b1
    ensures SixOf(r, b5, b4, b3, b2, b1, b0) & 0x13 == 0 <==> !b0 && !b1 && !b4
  {
  }

  lemma Remainders(p: nat)
    ensures p % 4 != 0 <==> p % 2 == 1 || p / 2 % 2 == 1
    ensures p / 16 % 4 != 0 <==> p / 16 % 2 == 1 || p / 32 % 2 == 1
  {
    ModOfMultiple(p, 2, 2);
    ModOfMultiple(p / 16, 2, 2);
    DivTwice(p, 16, 2);
  }

  /** The bit tests as remainders. */
  lemma Conditions(p: nat)
    ensures Bits(p, 0x31) != 0 <==> p % 2 == 1 || p / 16 % 4 != 0
    ensures Bits(p, 0x3) != 0 <==> p % 4 != 0
    ensures Bits(p, 0x13) == 0 <==> p % 4 == 0 && p / 16 % 2 == 0
  {
    hide Low, LowBits, SixOf;
    SixBits(p);
    MaskedBits(LowBits(p / 64, 2), p / 32 % 2 == 1, p / 16 % 2 == 1, p / 8 % 2 == 1, p / 4 % 2 == 1, p / 2 % 2 == 1,
               p % 2 == 1);
    Remainders(p);
  }

  // ----- The mask in reduced form

  /** The unconditional group and the first conditional one together: most of their terms cancel. */
  function FirstPart(e1: nat, e2: nat, p1: nat, p2: nat): bv8 {
    if p2 % 2 == 1 || p2 / 16 % 4 != 0 then
      Byte(e1) ^ Byte(e2) ^ Byte(e1 * e2 / 9183) ^ Byte(40 * p1)
    else
      Byte(e1) ^ Byte(63 * e1) ^ Byte(e2) ^ Byte(e1 * e2) ^ Byte(e1 * e2 / 9183) ^ Byte(e1 + e2 + 238)
      ^ Byte(p1) ^ Byte(p2)
  }

  /** What the other conditional groups have in common. */
  function Common(e1: nat, e2: nat, p2: nat): bv8 {
    Byte(47 * e1) ^ Byte(2 * e1 * e2) ^ Byte(e1 + e2 + 238) ^ Byte(p2)
  }

  /** The next two groups exclude each other. */
  function SecondPart(e1: nat, e2: nat, p1: nat, p2: nat): bv8 {
    if p1 % 4 != 0 then Common(e1, e2, p2) ^ Byte(p1 + p2 + 74)
    else if p1 / 16 % 2 == 0 then Common(e1, e2, p2) ^ Byte(p1 + 33)
    else 0
  }

  function ThirdPart(e1: nat, e2: nat, p1: nat, p2: nat): bv8 {
    if p1 * e2 % 9 == 1 then Common(e1, e2, p2) ^ Byte(p1 + 31) else 0
  }

  /** The mask, with every factor and constant modulo 256 and the conditions as remainders. */
  function ReducedMask(e1: nat, e2: nat, p1: nat, p2: nat): bv8 {
    FirstPart(e1, e2, p1, p2) ^ SecondPart(e1, e2, p1, p2) ^ ThirdPart(e1, e2, p1, p2)
  }

  lemma OntoSum(a: seq<nat>, b: seq<nat>)
    ensures Onto(0, a + b) == Onto(0, a) ^ Onto(0, b)
  {
    hide Onto, Low;
    OntoConcat(0, a, b);
    OntoIsOneMask(Onto(0, a), b);
  }

  lemma OntoNone()
    ensures Onto(0, []) == 0
  {
  }

  lemma AlwaysReduced(k: Keys)
    ensures Onto(0, Always(k))
         == Byte(k.e1) ^ Byte(63 * k.e1) ^ Byte(k.e2) ^ Byte(k.e1 * k.e2) ^ Byte(k.e1 * k.e2 / 9183)
            ^ Byte(k.e1 + k.e2 + 238) ^ Byte(k.p1) ^ Byte(k.p2)
  {
    hide Onto, Low, Byte;
    Unroll8(0, Always(k));
    LowIsByte(k.e1);
    LowOfProduct(k.e1, 0x33f, 3, 63);
    LowIsByte(k.e2);
    LowIsByte(k.e1 * k.e2);
    LowIsByte(k.e1 * k.e2 / 9183);
    LowOfSum(k.e1 + k.e2 + 238, 847);
    LowIsByte(k.p1);
    LowIsByte(k.p2);
  }

  lemma SecondReduced(k: Keys)
    ensures Onto(0, Second(k))
         == Byte(63 * k.e1) ^ Byte(40 * k.p1) ^ Byte(k.e1 * k.e2) ^ Byte(k.e1 + k.e2 + 238) ^ Byte(k.p1) ^ Byte(k.p2)
  {
    hide Onto, Low, Byte;
    Unroll6(0, Second(k));
    LowOfProduct(k.e1, 0x3423f, 834, 63);
    LowOfProduct(k.p1, 2344, 9, 40);
    LowIsByte(k.e1 * k.e2);
    LowOfSum(k.e1 + k.e2 + 238, 13375);
    LowIsByte(k.p1);
    LowIsByte(k.p2);
  }

  /** The third, fourth and fifth groups differ in their factor and in one term. */
  lemma GroupReduced(k: Keys, factor: nat, high: nat, term: nat, residue: nat)
    requires factor == 47 + 256 * high && Low(term) == Byte(residue)
    ensures var e1, e2, p2 := k.e1, k.e2, k.p2;
      Onto(0, [e1 * factor, term, e1 * e2 * 2, e1 + e2 + 0x343fee, p2]) == Common(e1, e2, p2) ^ Byte(residue)
  {
    hide Onto, Low, Byte;
    var t := [k.e1 * factor, term, k.e1 * k.e2 * 2, k.e1 + k.e2 + 0x343fee, k.p2];
    Unroll5(0, t);
    LowOfProduct(k.e1, factor, high, 47);
    LowIsByte(k.e1 * k.e2 * 2);
    assert k.e1 * k.e2 * 2 == 2 * k.e1 * k.e2;
    LowOfSum(k.e1 + k.e2 + 238, 13375);
    LowIsByte(k.p2);
  }

  lemma CancelTerms(a: bv8, b: bv8, c: bv8, d: bv8, e: bv8, f: bv8, g: bv8, h: bv8, i: bv8)
    ensures (a ^ b ^ c ^ d ^ e ^ f ^ g ^ h) ^ (b ^ i ^ d ^ f ^ g ^ h) == a ^ c ^ e ^ i
  {
  }

  lemma FirstPartReduced(k: Keys)
    ensures Onto(0, Always(k) + When(Bits(k.p2, 0x31) != 0, Second(k))) == FirstPart(k.e1, k.e2, k.p1, k.p2)
  {
    hide Onto, Low, Byte, Bits, Always, Second;
    Conditions(k.p2);
    OntoSum(Always(k), When(Bits(k.p2, 0x31) != 0, Second(k)));
    OntoNone();
    AlwaysReduced(k);
    SecondReduced(k);
    CancelTerms(Byte(k.e1), Byte(63 * k.e1), Byte(k.e2), Byte(k.e1 * k.e2), Byte(k.e1 * k.e2 / 9183),
                Byte(k.e1 + k.e2 + 238), Byte(k.p1), Byte(k.p2), Byte(40 * k.p1));
  }

  lemma SecondPartReduced(k: Keys)
    ensures Onto(0, When(Bits(k.p1, 0x3) != 0, Third(k)) + When(Bits(k.p1, 0x13) == 0, Fourth(k)))
         == SecondPart(k.e1, k.e2, k.p1, k.p2)
  {
    hide Onto, Low, Byte, Bits, Common;
    Conditions(k.p1);
    OntoSum(When(Bits(k.p1, 0x3) != 0, Third(k)), When(Bits(k.p1, 0x13) == 0, Fourth(k)));
    OntoNone();
    LowOfSum(k.p1 + k.p2 + 74, 35);
    GroupReduced(k, 0x3422f, 834, k.p1 + k.p2 + 0x234a, k.p1 + k.p2 + 74);
    LowIsByte(k.p1 + 33);
    GroupReduced(k, 0x3422f, 834, k.p1 + 33, k.p1 + 33);
  }

  lemma ThirdPartReduced(k: Keys)
    ensures Onto(0, When(k.p1 * k.e2 % 9 == 1, Fifth(k))) == ThirdPart(k.e1, k.e2, k.p1, k.p2)
  {
    hide Onto, Low, Byte, Common;
    OntoNone();
    LowIsByte(k.p1 + 31);
    GroupReduced(k, 0x342f, 52, k.p1 + 31, k.p1 + 31);
  }

  lemma MaskReduced(k: Keys)
    ensures Mask(k) == ReducedMask(k.e1, k.e2, k.p1, k.p2)
  {
    hide Onto, Bits, Always, Second, Third, Fourth, Fifth, When, FirstPart, SecondPart, ThirdPart;
    var a, b := Always(k), When(Bits(k.p2, 0x31) != 0, Second(k));
    var c, d := When(Bits(k.p1, 0x3) != 0, Third(k)), When(Bits(k.p1, 0x13) == 0, Fourth(k));
    var e := When(k.p1 * k.e2 % 9 == 1, Fifth(k));
    assert Terms(k) == (a + b) + (c + d) + e;
    OntoSum((a + b) + (c + d), e);
    OntoSum(a + b, c + d);
    FirstPartReduced(k);
    SecondPartReduced(k);
    ThirdPartReduced(k);
  }

  // ----- One byte, either way

  function Left(x: bv8, n: nat): bv8
    requires n < 8
  {
    (x << n) | (x >> (8 - n))
  }

  function Right(x: bv8, n: nat): bv8
    requires n < 8
  {
    (x >> n) | (x << (8 - n))
  }

  lemma Rotated(x: bv8, turn: nat)
    ensures RotateLeft(x, turn) == Left(x, turn % 8) && RotateRight(x, turn) == Right(x, turn % 8)
  {
    ShiftedNarrow(x, turn % 8);
  }

  /** The byte a call leaves: the rotation is by the sum of the two table entries and 6, modulo 8. */
  function Coded(mode: Mode, k: Keys, data: bv8): bv8 {
    var m, n := ReducedMask(k.e1, k.e2, k.p1, k.p2), (k.e1 + k.e2 + 6) % 8;
    match mode
    case Encrypting => Left(data ^ m, n)
    case Decrypting => Right(data, n) ^ m
  }

  lemma TurnReduced(k: Keys)
    ensures Turn(k) % 8 == (k.e1 + k.e2 + 6) % 8
  {
    SameRemainder(k.e1 + k.e2 + 6, 27133, 8);
  }

  lemma CodedOfKeys(mode: Mode, k: Keys, data: bv8)
    requires Digits(k)
    ensures CryptedByte(mode, k, data) == Coded(mode, k, data)
  {
    hide Mask, ReducedMask, RotateLeft, RotateRight, Left, Right, Turn;
    MaskReduced(k);
    TurnReduced(k);
    match mode
    case Encrypting => Rotated(Xor(data, Mask(k)), Turn(k));
    case Decrypting => Rotated(data, Turn(k));
  }

  function KeysOf(t1: Table, t2: Table, p1: nat, p2: nat): Keys
    requires p1 < 256 && p2 < 256
  {
    Keys(t1[p1] as nat, t2[p2] as nat, p1, p2)
  }

  /** At position p1 + 256 * p2 of the stream the keys are entry p1 of table 1 and entry p2 of table 2. */
  lemma CodedExactly(mode: Mode, t1: Table, t2: Table, p1: nat, p2: nat, data: bv8)
    requires p1 < 256 && p2 < 256
    ensures CipherOf(mode, t1, t2)(p1 + 256 * p2, data)
         == Coded(mode, KeysOf(t1, t2, p1, p2), data)
  {
    hide CipherOf, Coded, CryptedByte;
    DivModUnique(p1 + 256 * p2, 256, p2, p1);
    CipherAt(mode, t1, t2, p1 + 256 * p2, data);
    CodedOfKeys(mode, KeysAt(t1, t2, p1 + 256 * p2), data);
  }

  /** One call of Encrypt or Decrypt on a buffer, byte by byte. */
  method CallExactly(e: MessageEncrypt, mode: Mode, buffer: array<bv8>, length: nat, move: bool)
    requires e.Valid() && length <= buffer.Length && buffer != e.encrypt1 && buffer != e.encrypt2
    modifies e, buffer
    ensures e.Valid() && e.Position() == if move then (old(e.Position()) + length) % 65536 else old(e.Position())
    ensures forall i :: 0 <= i < length ==>
      var c := (old(e.Position()) + i) % 65536;
      buffer[i] == Coded(mode, KeysOf(old(e.encrypt1[..]), old(e.encrypt2[..]), c % 256, c / 256), old(buffer[i]))
    ensures forall i :: length <= i < buffer.Length ==> buffer[i] == old(buffer[i])
  {
    hide CipherOf, Streamed, Coded;
    ghost var t1: Table, t2: Table, start, was := e.encrypt1[..], e.encrypt2[..], e.Position(), buffer[..];
    match mode {
      case Encrypting => e.Encrypt(buffer, length, move);
      case Decrypting => e.Decrypt(buffer, length, move);
    }
    forall i | 0 <= i < length
      ensures var c := (start + i) % 65536; buffer[i] == Coded(mode, KeysOf(t1, t2, c % 256, c / 256), was[i])
    {
      var c := (start + i) % 65536;
      StreamedAt(CipherOf(mode, t1, t2), start, was[..length], i);
      CodedExactly(mode, t1, t2, c % 256, c / 256, was[i]);
      assert buffer[i] == buffer[..][i];
    }
    forall i | length <= i < buffer.Length ensures buffer[i] == was[i] {
      assert buffer[i] == buffer[..][i] == was[length..][i - length];
    }
  }

  // ----- The tables of a new object

  lemma {:induction false} FixedFrom(a: nat, b: nat, c: nat, first: nat, fixed: nat, i: nat)
    requires 3 <= i && fixed < 256 && (a * fixed * fixed + b * fixed + c) % 256 == fixed
    requires Iterate(a, b, c, first, 3) % 256 == fixed
    ensures Iterate(a, b, c, first, i) % 256 == fixed
  {
    hide Iterate;
    if i == 3 {
    } else {
      FixedFrom(a, b, c, first, fixed, i - 1);
      IterateStep(a, b, c, first, i - 1, fixed);
    }
  }

  lemma EntryAt(a: nat, b: nat, c: nat, first: nat, i: nat)
    requires i < 256
    ensures Generated(a, b, c, first)[i] == Byte(Iterate(a, b, c, first, i))
  {
    hide Iterate;
  }

  lemma GeneratedNumber(a: nat, b: nat, c: nat, first: nat, i: nat)
    requires i < 256
    ensures Generated(a, b, c, first)[i] as nat == Iterate(a, b, c, first, i) % 256
  {
    hide Iterate, Generated, Byte, Low;
    EntryAt(a, b, c, first, i);
    LowIsByte(Iterate(a, b, c, first, i));
    LowMeans(Iterate(a, b, c, first, i));
  }

  /** Every table begins with the first code, and each entry is the polynomial of the one before, modulo 256. */
  lemma GeneratedRecurrence(a: nat, b: nat, c: nat, first: nat, i: nat)
    requires i < 255
    ensures Generated(a, b, c, first)[0] as nat == first % 256
    ensures var x, y := Generated(a, b, c, first)[i] as nat, Generated(a, b, c, first)[i + 1] as nat;
      y == (a * x * x + b * x + c) % 256
  {
    hide Iterate, Generated;
    IterateStart(a, b, c, first);
    GeneratedNumber(a, b, c, first, 0);
    GeneratedNumber(a, b, c, first, i);
    GeneratedNumber(a, b, c, first, i + 1);
    IterateStep(a, b, c, first, i, Generated(a, b, c, first)[i] as nat);
  }

  lemma ByteIs(x: nat, b: bv8)
    requires x % 256 == b as nat
    ensures Byte(x) == b
  {
  }

  lemma GeneratedAt(a: nat, b: nat, c: nat, first: nat, i: nat, entry: bv8)
    requires i < 256 && Iterate(a, b, c, first, i) % 256 == entry as nat
    ensures Generated(a, b, c, first)[i] == entry
  {
    hide Iterate, Generated, Byte;
    EntryAt(a, b, c, first, i);
    ByteIs(Iterate(a, b, c, first, i), entry);
  }

  lemma FirstTable(i: nat)
    requires i < 256
    ensures Generated(0x5a, 0x24, 0x11, 0xfe)[i]
         == if i == 0 then 254 else if i == 1 then 49 else if i == 2 then 15 else 71
  {
    hide Iterate, Generated;
    IterateStart(0x5a, 0x24, 0x11, 0xfe);
    IterateStep(0x5a, 0x24, 0x11, 0xfe, 0, 254);
    IterateStep(0x5a, 0x24, 0x11, 0xfe, 1, 49);
    IterateStep(0x5a, 0x24, 0x11, 0xfe, 2, 15);
    if i == 0 {
      GeneratedAt(0x5a, 0x24, 0x11, 0xfe, i, 254);
    } else if i == 1 {
      GeneratedAt(0x5a, 0x24, 0x11, 0xfe, i, 49);
    } else if i == 2 {
      GeneratedAt(0x5a, 0x24, 0x11, 0xfe, i, 15);
    } else {
      FixedFrom(0x5a, 0x24, 0x11, 0xfe, 71, i);
      GeneratedAt(0x5a, 0x24, 0x11, 0xfe, i, 71);
    }
  }

  lemma SecondTable(i: nat)
    requires i < 256
    ensures Generated(0xa1, 0x88, 0x12, 0xfc)[i]
         == if i == 0 then 252 else if i == 1 then 2 else if i == 2 then 166 else 102
  {
    hide Iterate, Generated;
    IterateStart(0xa1, 0x88, 0x12, 0xfc);
    IterateStep(0xa1, 0x88, 0x12, 0xfc, 0, 252);
    IterateStep(0xa1, 0x88, 0x12, 0xfc, 1, 2);
    IterateStep(0xa1, 0x88, 0x12, 0xfc, 2, 166);
    if i == 0 {
      GeneratedAt(0xa1, 0x88, 0x12, 0xfc, i, 252);
    } else if i == 1 {
      GeneratedAt(0xa1, 0x88, 0x12, 0xfc, i, 2);
    } else if i == 2 {
      GeneratedAt(0xa1, 0x88, 0x12, 0xfc, i, 166);
    } else {
      FixedFrom(0xa1, 0x88, 0x12, 0xfc, 102, i);
      GeneratedAt(0xa1, 0x88, 0x12, 0xfc, i, 102);
    }
  }

  /** With the program's keys both tables are constant from entry 3 on. */
  lemma GeneratedTables(i: nat)
    requires i < 256
    ensures Generated(0x5a, 0x24, 0x11, 0xfe)[i]
         == if i == 0 then 254 else if i == 1 then 49 else if i == 2 then 15 else 71
    ensures Generated(0xa1, 0x88, 0x12, 0xfc)[i]
         == if i == 0 then 252 else if i == 1 then 2 else if i == 2 then 166 else 102
  {
    hide Generated;
    FirstTable(i);
    SecondTable(i);
  }

  /** One pass, entry by entry: the entries from, from + 4, ... absorb the entry of table 2 two places further on. */
  lemma PushedEntries(t1: Table, t2: Table, from: nat, count: nat, i: nat)
    requires from + 4 * count <= 254 && i < 256
    ensures i < count ==> Pushed(t1, t2, from, count)[from + 4 * i] == t1[from + 4 * i] ^ t2[from + 4 * i + 2]
    ensures (i < from || from + 4 * count <= i || (i - from) % 4 != 0) ==> Pushed(t1, t2, from, count)[i] == t1[i]
  {
  }

  lemma NewEntries(i: nat)
    requires i < 256
    ensures var t2 := Generated(0xa1, 0x88, 0x12, 0xfc); var t1 := Pushed(Generated(0x5a, 0x24, 0x11, 0xfe), t2, 1, 10);
      && t1[i] == (if i == 0 then 254 else if i == 1 then 87 else if i == 2 then 15
                   else if i % 4 == 1 && i <= 37 then 33 else 71)
      && t2[i] == if i == 0 then 252 else if i == 1 then 2 else if i == 2 then 166 else 102
  {
    hide Generated, Pushed;
    GeneratedTables(i);
    if i < 254 { GeneratedTables(i + 2); }
    var t1, t2 := Generated(0x5a, 0x24, 0x11, 0xfe), Generated(0xa1, 0x88, 0x12, 0xfc);
    PushedEntries(t1, t2, 1, 10, i);
    if i % 4 == 1 && i <= 37 {
      PushedEntries(t1, t2, 1, 10, i / 4);
    }
  }

  /** The tables of every new object. */
  method NewTables() returns (e: MessageEncrypt)
    ensures fresh(e) && e.Valid() && e.Position() == 0
    ensures e.encrypt1[0] == 254 && e.encrypt1[1] == 87 && e.encrypt1[2] == 15
    ensures forall i :: 3 <= i < 256 ==> e.encrypt1[i] == if i % 4 == 1 && i <= 37 then 33 else 71
    ensures e.encrypt2[0] == 252 && e.encrypt2[1] == 2 && e.encrypt2[2] == 166
    ensures forall i :: 3 <= i < 256 ==> e.encrypt2[i] == 102
  {
    hide Generated, Pushed;
    e := new MessageEncrypt();
    forall i: nat | i < 256
      ensures e.encrypt1[i] == (if i == 0 then 254 else if i == 1 then 87 else if i == 2 then 15
                                else if i % 4 == 1 && i <= 37 then 33 else 71)
      ensures e.encrypt2[i] == if i == 0 then 252 else if i == 1 then 2 else if i == 2 then 166 else 102
    {
      NewEntries(i);
      assert e.encrypt1[i] == e.encrypt1[..][i] && e.encrypt2[i] == e.encrypt2[..][i];
    }
  }

  lemma MaskAtStart()
    ensures ReducedMask(254, 252, 0, 0) == 0x1d
  {
    hide Byte;
    ByteIs(254, 254);
    ByteIs(63 * 254, 130);
    ByteIs(252, 252);
    ByteIs(254 * 252, 8);
    ByteIs(254 * 252 / 9183, 6);
    ByteIs(254 + 252 + 238, 232);
    ByteIs(0, 0);
    ByteIs(47 * 254, 162);
    ByteIs(2 * 254 * 252, 16);
    ByteIs(33, 33);
  }

  /** At the start the rotation is by 0. */
  lemma CodedAtStart(data: bv8)
    ensures Coded(Encrypting, Keys(254, 252, 0, 0), data) == data ^ 0x1d
  {
    hide ReducedMask;
    MaskAtStart();
    assert (254 + 252 + 6) % 8 == 0;
  }

  /** The first byte a new object encrypts: the letter A becomes 0x5c. */
  method FirstByte() returns (e: MessageEncrypt, b: bv8)
    ensures b == 0x5c && e.Position() == 1
  {
    hide Coded;
    e := NewTables();
    var buffer := new bv8[1](_ => 0x41);
    CodedAtStart(0x41);
    CallExactly(e, Encrypting, buffer, 1, true);
    b := buffer[0];
  }
}
