/** ByteBuffer itself: two cursors over a growable byte vector (ByteBuffer.h). */
module ByteBuffer {
  import opened Bytes
  import opened Wire
  import opened WireLaws

  // ----- Fields in sequence

  /** A value together with the type it is sent as. */
  datatype Field = Field(t: Ty, v: Val)

  ghost predicate FieldOk(f: Field) {
    HasType(f.t, f.v) && Sendable(f.v)
  }

  ghost predicate FieldsOk(fs: seq<Field>) {
    forall i :: 0 <= i < |fs| ==> FieldOk(fs[i])
  }

  ghost function EncodeFields(fs: seq<Field>): seq<byte>
    requires FieldsOk(fs)
  {
    if fs == [] then [] else Encode(fs[0].t, fs[0].v) + EncodeFields(fs[1..])
  }

  lemma {:induction false} EncodeFieldsConcat(a: seq<Field>, b: seq<Field>)
    requires FieldsOk(a) && FieldsOk(b)
    ensures FieldsOk(a + b) && EncodeFields(a + b) == EncodeFields(a) + EncodeFields(b)
  {
    hide Encode, FieldOk;
    if a == [] {
      assert a + b == b;
    } else {
      EncodeFieldsConcat(a[1..], b);
      assert (a + b)[1..] == a[1..] + b;
    }
  }

  lemma {:induction false} EncodeAllSnoc(t: Ty, vs: seq<Val>, v: Val)
    requires HasType(t, v) && forall i :: 0 <= i < |vs| ==> HasType(t, vs[i])
    ensures EncodeAll(t, vs + [v]) == EncodeAll(t, vs) + Encode(t, v)
    decreases |vs|
  {
    hide Encode, HasType;
    if vs == [] {
      assert vs + [v] == [v] && [v][1..] == [];
    } else {
      EncodeAllSnoc(t, vs[1..], v);
      assert (vs + [v])[1..] == vs[1..] + [v];
    }
  }

  lemma DecodeAllStep(t: Ty, bs: seq<byte>, pos: nat, n: nat)
    ensures n == 0 ==> DecodeAll(t, bs, pos, n) == ([], pos)
    ensures n != 0 ==>
      var (v, mid) := Decode(t, bs, pos);
      var (vs, end) := DecodeAll(t, bs, mid, n - 1);
      DecodeAll(t, bs, pos, n) == ([v] + vs, end)
  {
    hide Decode;
  }

  lemma InsertedSnoc(es: seq<Val>, e: Val)
    ensures Inserted(es + [e]) == Insert(Inserted(es), e)
  {
    hide Insert;
    assert (es + [e])[..|es|] == es;
  }

  // ----- The buffer

  function Zeros(n: nat): seq<byte> {
    seq(n, _ => 0)
  }

  /** The source stands at `at`, and every other byte is as before. */
  predicate Overwritten(before: seq<byte>, after: seq<byte>, at: nat, src: seq<byte>) {
    && |after| == |before|
    && forall k :: 0 <= k < |after| ==> after[k] == if at <= k < at + |src| then src[k - at] else before[k]
  }

  /** Overwriting a gap at the end with the source is appending it. */
  lemma OverwrittenTail(before: seq<byte>, gap: seq<byte>, after: seq<byte>, src: seq<byte>)
    requires |gap| == |src| && Overwritten(before + gap, after, |before|, src)
    ensures after == before + src
  {
  }

  /** A raw block as it stands in the storage; zeros if it is not all there. */
  function Block(bs: seq<byte>, pos: nat, len: nat): (r: seq<byte>)
    ensures |r| == len
  {
    if pos + len <= |bs| then bs[pos..pos + len] else Zeros(len)
  }

  lemma {:induction false} ZerosAreZero(n: nat)
    ensures FromLittleEndian(Zeros(n)) == 0
  {
    if n == 0 {
    } else {
      ZerosAreZero(n - 1);
      assert Zeros(n)[1..] == Zeros(n - 1);
    }
  }

  /** The two read primitives agree, past the end too: an integer is what its bytes, read as a block, stand for. */
  lemma ScalarIsBlock(bs: seq<byte>, pos: nat, size: nat)
    ensures ReadScalar(bs, pos, size) == FromLittleEndian(Block(bs, pos, size))
  {
    ZerosAreZero(size);
  }

  class ByteBuffer {
    var rpos: nat
    var wpos: nat
    var storage: seq<byte>

    /** Without the raw cursor setters the write cursor never leaves the end. */
    ghost predicate Valid()
      reads this
    {
      wpos == |storage|
    }

    constructor ()
      ensures Valid() && storage == [] && rpos == 0
    {
      rpos, wpos, storage := 0, 0, [];
    }

    method Clear()
      modifies this
      ensures Valid() && storage == [] && rpos == 0
    {
      storage := [];
      rpos, wpos := 0, 0;
    }

    /** memcpy into the storage. */
    method CopyIn(at: nat, src: seq<byte>)
      requires at + |src| <= |storage|
      modifies this`storage
      ensures Overwritten(old(storage), storage, at, src)
    {
      for i := 0 to |src|
        invariant Overwritten(old(storage), storage, at, src[..i])
      {
        storage := storage[at + i := src[i]];
      }
      assert src[..|src|] == src;
    }

    method Append(src: seq<byte>)
      requires Valid()
      modifies this`wpos, this`storage
      ensures Valid() && storage == old(storage) + src
    {
      if |src| == 0 {
        return;
      }
      if |storage| < wpos + |src| {
        storage := storage + Zeros(wpos + |src| - |storage|);
      }
      CopyIn(wpos, src);
      OverwrittenTail(old(storage), Zeros(|src|), storage, src);
      wpos := wpos + |src|;
    }

    /** put: overwrites in place; the assertion of the code is the precondition. */
    method Put(pos: nat, src: seq<byte>)
      requires Valid() && pos + |src| <= |storage|
      modifies this`storage
      ensures Valid() && Overwritten(old(storage), storage, pos, src)
    {
      CopyIn(pos, src);
    }

    /** read<T>: the cursor moves even when there is nothing left to read. */
    method ReadScalarAt(size: nat) returns (x: nat)
      modifies this`rpos
      ensures x == ReadScalar(storage, old(rpos), size) && rpos == old(rpos) + size
    {
      x := if rpos + size > |storage| then 0 else FromLittleEndian(storage[rpos..rpos + size]);
      rpos := rpos + size;
    }

    method ReadChar() returns (c: byte)
      modifies this`rpos
      ensures c == (if old(rpos) < |storage| then storage[old(rpos)] else 0) && rpos == old(rpos) + 1
    {
      c := if rpos + 1 > |storage| then 0 else storage[rpos];
      rpos := rpos + 1;
    }

    /** The raw block read. */
    method ReadBlock(len: nat) returns (dest: seq<byte>)
      modifies this`rpos
      ensures rpos == old(rpos) + len && dest == Block(storage, old(rpos), len)
    {
      if rpos + len <= |storage| {
        dest := storage[rpos..rpos + len];
      } else {
        dest := Zeros(len);
      }
      rpos := rpos + len;
    }

    // ----- operator<<

    method WriteText(chars: seq<byte>)
      requires Valid()
      modifies this`wpos, this`storage
      ensures Valid() && storage == old(storage) + (Header(|chars| + 1) + chars + [0])
    {
      Append(Header(|chars| + 1));
      Append(chars);
      Append([0]);
    }

    method Write(t: Ty, v: Val)
      requires Valid() && HasType(t, v)
      modifies this`wpos, this`storage
      ensures Valid() && storage == old(storage) + Encode(t, v)
      decreases t, 0
    {
      hide LittleEndian, EncodeAll, Sorted, Header;
      match t
      case Unsigned(w) => Append(LittleEndian(v.n, w.Size()));
      case Signed(w) => Append(LittleEndian(v.n % w.Range(), w.Size()));
      case Boolean => Append([if v.b then 1 else 0]);
      case Str => WriteText(v.chars);
      case Pair(a, b) =>
        ghost var was := storage;
        Write(a, v.first);
        Write(b, v.second);
        assert storage == was + (Encode(a, v.first) + Encode(b, v.second));
      case Vector(e) => WriteItems(e, v.vals);
      case List(e) => WriteItems(e, v.vals);
      case Map(e) => WriteItems(e, v.vals);
    }

    /** The loops of the three container writers. */
    method WriteItems(t: Ty, vals: seq<Val>)
      requires Valid() && forall i :: 0 <= i < |vals| ==> HasType(t, vals[i])
      modifies this`wpos, this`storage
      ensures Valid() && storage == old(storage) + (Header(|vals|) + EncodeAll(t, vals))
      decreases t, 1
    {
      hide Encode, HasType, LittleEndian;
      Append(Header(|vals|));
      var i := 0;
      while i < |vals|
        invariant i <= |vals| && Valid()
        invariant storage == old(storage) + Header(|vals|) + EncodeAll(t, vals[..i])
      {
        Write(t, vals[i]);
        EncodeAllSnoc(t, vals[..i], vals[i]);
        assert vals[..i + 1] == vals[..i] + [vals[i]];
        i := i + 1;
      }
      assert vals[..i] == vals;
    }

    // ----- operator>>

    method ReadText() returns (value: seq<byte>)
      modifies this`rpos
      ensures (value, rpos) == ReadChars(storage, old(rpos) + 4, ReadScalar(storage, old(rpos), 4))
    {
      var len: nat := ReadScalarAt(4);
      ghost var all := ReadChars(storage, rpos, len);
      value := [];
      while len != 0
        invariant all.0 == value + ReadChars(storage, rpos, len).0
        invariant all.1 == ReadChars(storage, rpos, len).1
        decreases len
      {
        var c := ReadChar();
        if c == 0 {
          assert value + [] == value;
          return;
        }
        value := value + [c];
        len := len - 1;
      }
      assert value + [] == value;
    }

    /** Reading changes only the read cursor and delivers exactly what the format says, on any bytes. */
    method Read(t: Ty) returns (v: Val)
      modifies this`rpos
      ensures (v, rpos) == Decode(t, storage, old(rpos))
      decreases t, 0
    {
      match t
      case Unsigned(w) =>
        var x := ReadScalarAt(w.Size());
        v := Num(x);
      case Signed(w) =>
        var x := ReadScalarAt(w.Size());
        v := Num(ToSigned(x, w));
      case Boolean =>
        var x := ReadScalarAt(1);
        v := Flag(ToSigned(x, W8) > 0);
      case Str =>
        var s := ReadText();
        v := Text(s);
      case Pair(a, b) =>
        var x := Read(a);
        var y := Read(b);
        v := Two(x, y);
      case Vector(e) =>
        var vs := ReadItems(e);
        v := Items(vs);
      case List(e) =>
        var vs := ReadItems(e);
        v := Items(vs);
      case Map(e) =>
        var m := ReadMap(e);
        v := Items(m);
    }

    method ReadItems(t: Ty) returns (vs: seq<Val>)
      modifies this`rpos
      ensures (vs, rpos) == DecodeItems(t, storage, old(rpos))
      decreases t, 1
    {
      hide Decode, DecodeAll, ReadScalar;
      var n: nat := ReadScalarAt(4);
      vs := [];
      if n > MAX_ARR_SIZE {
        return;
      }
      ghost var all := DecodeAll(t, storage, rpos, n);
      while n != 0
        invariant all.0 == vs + DecodeAll(t, storage, rpos, n).0
        invariant all.1 == DecodeAll(t, storage, rpos, n).1
        decreases n
      {
        DecodeAllStep(t, storage, rpos, n);
        var v := Read(t);
        vs := vs + [v];
        n := n - 1;
      }
      DecodeAllStep(t, storage, rpos, 0);
      assert vs + [] == vs;
    }

    /** The search in the map read and the search in the pairs as they stand on the wire agree. */
    static lemma ReadMapLookup(t: Ty, bs: seq<byte>, pos: nat)
      ensures t.Pair? ==> var vs := DecodeItems(t, bs, pos).0;
        && Pairs(Inserted(vs)) && Ascending(Inserted(vs))
        && forall k :: Lookup(Inserted(vs), k) == Lookup(vs, k)
    {
      hide DecodeItems, Inserted, Lookup, Ascending;
      if t.Pair? {
        var vs := DecodeItems(t, bs, pos).0;
        PairsDecoded(t.first, t.second, bs, pos);
        MapLookup(vs, Flag(true));
        forall k ensures Lookup(Inserted(vs), k) == Lookup(vs, k) { MapLookup(vs, k); }
      }
    }

    /** The map reader inserts entry after entry; a repeated key keeps its first value. */
    method ReadMap(t: Ty) returns (m: seq<Val>)
      modifies this`rpos
      ensures var (vs, end) := DecodeItems(t, storage, old(rpos)); m == Inserted(vs) && rpos == end
      ensures t.Pair? ==>
        && Pairs(m) && Ascending(m)
        && forall k :: Lookup(m, k) == Lookup(DecodeItems(t, storage, old(rpos)).0, k)
      decreases t, 1
    {
      hide Decode, DecodeAll, ReadScalar, Insert, Lookup, Ascending, Pairs;
      ReadMapLookup(t, storage, rpos);
      var n: nat := ReadScalarAt(4);
      m := [];
      if n > MAX_ARR_SIZE {
        return;
      }
      ghost var vs, all := [], DecodeAll(t, storage, rpos, n);
      while n != 0
        invariant all.0 == vs + DecodeAll(t, storage, rpos, n).0
        invariant all.1 == DecodeAll(t, storage, rpos, n).1
        invariant m == Inserted(vs)
        decreases n
      {
        DecodeAllStep(t, storage, rpos, n);
        var v := Read(t);
        InsertedSnoc(vs, v);
        m := Insert(m, v);
        vs := vs + [v];
        n := n - 1;
      }
      DecodeAllStep(t, storage, rpos, 0);
      assert vs + [] == vs;
    }
  }

  // ----- The buffer as a queue

  datatype Op = Push(f: Field) | Pop(t: Ty)

  ghost predicate OpsOk(ops: seq<Op>) {
    ops != [] ==> (ops[0].Push? ==> FieldOk(ops[0].f)) && OpsOk(ops[1..])
  }

  /** The buffer's state as its methods leave it: one write appends an encoding, one read moves the cursor. */
  datatype State = State(storage: seq<byte>, rpos: nat)

  ghost function BufferRun(s: State, ops: seq<Op>): (State, seq<Val>)
    requires OpsOk(ops)
    decreases |ops|
  {
    if ops == [] then (s, [])
    else match ops[0]
      case Push(f) => BufferRun(s.(storage := s.storage + Encode(f.t, f.v)), ops[1..])
      case Pop(t) =>
        var (v, end) := Decode(t, s.storage, s.rpos);
        var (s', vs) := BufferRun(s.(rpos := end), ops[1..]);
        (s', [v] + vs)
  }

  /** No read finds the queue empty or asks for another type than was written. */
  predicate Matching(q: seq<Field>, ops: seq<Op>)
    decreases |ops|
  {
    ops != [] ==>
      match ops[0]
      case Push(f) => Matching(q + [f], ops[1..])
      case Pop(t) => q != [] && q[0].t == t && Matching(q[1..], ops[1..])
  }

  /** What a queue of values would deliver, and what would be left in it. */
  function QueueRun(q: seq<Field>, ops: seq<Op>): (seq<Field>, seq<Val>)
    requires Matching(q, ops)
    decreases |ops|
  {
    if ops == [] then (q, [])
    else match ops[0]
      case Push(f) => QueueRun(q + [f], ops[1..])
      case Pop(t) => var (q', vs) := QueueRun(q[1..], ops[1..]); (q', [q[0].v] + vs)
  }

  /** The unread part of the storage is the queue. */
  ghost predicate Unread(s: State, q: seq<Field>) {
    FieldsOk(q) && s.rpos <= |s.storage| && s.storage[s.rpos..] == EncodeFields(q)
  }

  lemma PushKeepsUnread(s: State, q: seq<Field>, f: Field)
    requires Unread(s, q) && FieldOk(f)
    ensures Unread(s.(storage := s.storage + Encode(f.t, f.v)), q + [f])
  {
    hide Encode, HasType, Sendable;
    EncodeFieldsConcat(q, [f]);
    assert [f][1..] == [];
    assert EncodeFields([f]) == Encode(f.t, f.v);
  }

  lemma PopKeepsUnread(s: State, q: seq<Field>)
    requires Unread(s, q) && q != []
    ensures var (v, end) := Decode(q[0].t, s.storage, s.rpos); v == q[0].v && Unread(s.(rpos := end), q[1..])
  {
    hide Encode, Decode, HasType, Sendable;
    var part := Encode(q[0].t, q[0].v);
    assert FieldOk(q[0]);
    assert s.storage[s.rpos..] == part + EncodeFields(q[1..]);
    assert s.storage[s.rpos..s.rpos + |part|] == s.storage[s.rpos..][..|part|] == part;
    RoundTrip(q[0].t, q[0].v, s.storage, s.rpos);
  }

  /** Any interleaving of matching typed writes and reads makes the buffer a first-in first-out queue of values. */
  lemma {:induction false} BufferIsQueue(s: State, q: seq<Field>, ops: seq<Op>)
    requires Unread(s, q) && Matching(q, ops)
    requires OpsOk(ops)
    ensures var (s', vs) := BufferRun(s, ops); var (q', us) := QueueRun(q, ops); vs == us && Unread(s', q')
    decreases |ops|
  {
    hide Encode, Decode, HasType, Sendable, Unread;
    if ops == [] {
    } else {
      match ops[0]
      case Push(f) =>
        PushKeepsUnread(s, q, f);
        BufferIsQueue(s.(storage := s.storage + Encode(f.t, f.v)), q + [f], ops[1..]);
      case Pop(t) =>
        PopKeepsUnread(s, q);
        BufferIsQueue(s.(rpos := Decode(t, s.storage, s.rpos).1), q[1..], ops[1..]);
    }
  }

  /** What a run delivers after values already delivered. */
  ghost function Prefixed(vs: seq<Val>, result: (State, seq<Val>)): (State, seq<Val>) {
    (result.0, vs + result.1)
  }

  lemma RunUnfolds(s: State, ops: seq<Op>, vs: seq<Val>)
    requires ops != [] && OpsOk(ops)
    ensures match ops[0]
      case Push(f) =>
        var s' := State(s.storage + Encode(f.t, f.v), s.rpos);
        Prefixed(vs, BufferRun(s, ops)) == Prefixed(vs, BufferRun(s', ops[1..]))
      case Pop(t) =>
        var (v, end) := Decode(t, s.storage, s.rpos);
        Prefixed(vs, BufferRun(s, ops)) == Prefixed(vs + [v], BufferRun(State(s.storage, end), ops[1..]))
  {
    hide Encode, Decode, HasType, Sendable;
    if ops[0].Pop? {
      var (v, end) := Decode(ops[0].t, s.storage, s.rpos);
      var us := BufferRun(State(s.storage, end), ops[1..]).1;
      assert vs + ([v] + us) == (vs + [v]) + us;
    }
  }

  /** The queue law of a buffer that is really written to and read from. */
  method DriveBuffer(b: ByteBuffer, ops: seq<Op>, ghost q: seq<Field>) returns (vs: seq<Val>)
    requires b.Valid() && OpsOk(ops) && Matching(q, ops) && Unread(State(b.storage, b.rpos), q)
    modifies b
    ensures b.Valid() && vs == QueueRun(q, ops).1
    ensures Unread(State(b.storage, b.rpos), QueueRun(q, ops).0)
  {
    hide Encode, Decode, HasType, Sendable, Unread, Matching, QueueRun;
    ghost var start := State(b.storage, b.rpos);
    vs := [];
    assert ops[0..] == ops && forall us: seq<Val> :: vs + us == us;
    for i := 0 to |ops|
      invariant b.Valid() && OpsOk(ops[i..])
      invariant BufferRun(start, ops) == Prefixed(vs, BufferRun(State(b.storage, b.rpos), ops[i..]))
    {
      RunUnfolds(State(b.storage, b.rpos), ops[i..], vs);
      assert ops[i..][0] == ops[i] && ops[i..][1..] == ops[i + 1..];
      match ops[i] {
        case Push(f) =>
          b.Write(f.t, f.v);
        case Pop(t) =>
          var v := b.Read(t);
          vs := vs + [v];
      }
    }
    assert vs + [] == vs;
    BufferIsQueue(start, q, ops);
  }

  /** A raw block appended to a buffer with nothing unread comes back, and again nothing is unread. */
  method PassBlock(b: ByteBuffer, src: seq<byte>) returns (dest: seq<byte>)
    requires b.Valid() && b.rpos == |b.storage|
    modifies b
    ensures b.Valid() && b.rpos == |b.storage| && b.storage == old(b.storage) + src
    ensures dest == src
  {
    b.Append(src);
    dest := b.ReadBlock(|src|);
  }

  // ----- Overwriting one field in place

  lemma OverwrittenMiddle(a: seq<byte>, was: seq<byte>, c: seq<byte>, after: seq<byte>, src: seq<byte>)
    requires |was| == |src| && Overwritten(a + was + c, after, |a|, src)
    ensures after == a + src + c
  {
  }

  lemma SplitAt(fs: seq<Field>, i: nat)
    requires FieldsOk(fs) && i < |fs|
    ensures EncodeFields(fs) == EncodeFields(fs[..i]) + Encode(fs[i].t, fs[i].v) + EncodeFields(fs[i + 1..])
  {
    hide Encode, FieldOk;
    EncodeFieldsConcat(fs[..i], fs[i..]);
    assert fs == fs[..i] + fs[i..];
    assert fs[i..][1..] == fs[i + 1..];
  }

  /** put of an equally long encoding over field i changes that field and no other. */
  lemma PutChangesOneField(fs: seq<Field>, i: nat, v: Val, after: seq<byte>)
    requires FieldsOk(fs) && i < |fs| && FieldOk(Field(fs[i].t, v))
    requires |Encode(fs[i].t, v)| == |Encode(fs[i].t, fs[i].v)|
    requires Overwritten(EncodeFields(fs), after, |EncodeFields(fs[..i])|, Encode(fs[i].t, v))
    ensures FieldsOk(fs[i := Field(fs[i].t, v)]) && after == EncodeFields(fs[i := Field(fs[i].t, v)])
  {
    hide Encode, HasType, Sendable, EncodeFields;
    SplitAt(fs, i);
    SplitAt(fs[i := Field(fs[i].t, v)], i);
    assert fs[i := Field(fs[i].t, v)][..i] == fs[..i];
    assert fs[i := Field(fs[i].t, v)][i + 1..] == fs[i + 1..];
    OverwrittenMiddle(EncodeFields(fs[..i]), Encode(fs[i].t, fs[i].v), EncodeFields(fs[i + 1..]), after,
                      Encode(fs[i].t, v));
  }

  /** The types `put` is offered for. */
  predicate FixedWidth(t: Ty) {
    t.Unsigned? || t.Signed? || t.Boolean?
  }

  /** Integers and booleans occupy a fixed number of bytes, so `put` over a field fits. */
  lemma PutFits(fs: seq<Field>, i: nat, v: Val)
    requires FieldsOk(fs) && i < |fs| && FixedWidth(fs[i].t) && HasType(fs[i].t, v)
    ensures |Encode(fs[i].t, v)| == |Encode(fs[i].t, fs[i].v)|
    ensures |EncodeFields(fs[..i])| + |Encode(fs[i].t, v)| <= |EncodeFields(fs)|
  {
    hide LittleEndian, EncodeFields, Sendable;
    SplitAt(fs, i);
  }

  lemma OneField(f: Field)
    requires FieldOk(f)
    ensures EncodeFields([f]) == Encode(f.t, f.v)
  {
    hide Encode;
    assert [f][1..] == [];
  }

  /** The fields written one after another, each behind the ones before; `at` is where field i begins. */
  method WriteFields(b: ByteBuffer, fs: seq<Field>, i: nat) returns (at: nat)
    requires b.Valid() && b.storage == [] && FieldsOk(fs) && i < |fs|
    modifies b
    ensures b.Valid() && b.rpos == old(b.rpos) && b.storage == EncodeFields(fs)
    ensures at == |EncodeFields(fs[..i])|
  {
    hide Encode, HasType, Sendable;
    at := 0;
    for k := 0 to |fs|
      invariant b.Valid() && b.rpos == old(b.rpos) && b.storage == EncodeFields(fs[..k])
      invariant i < k ==> at == |EncodeFields(fs[..i])|
    {
      if k == i {
        at := b.wpos;
      }
      EncodeFieldsConcat(fs[..k], [fs[k]]);
      OneField(fs[k]);
      assert fs[..k + 1] == fs[..k] + [fs[k]];
      b.Write(fs[k].t, fs[k].v);
    }
    assert fs[..|fs|] == fs;
  }

  /** The fields read one after another. */
  method ReadFields(b: ByteBuffer, ts: seq<Ty>, ghost fs: seq<Field>) returns (vs: seq<Val>)
    requires |ts| == |fs| && (forall k :: 0 <= k < |fs| ==> fs[k].t == ts[k])
    requires Unread(State(b.storage, b.rpos), fs)
    modifies b`rpos
    ensures |vs| == |fs| && forall k :: 0 <= k < |fs| ==> vs[k] == fs[k].v
  {
    hide Encode, Decode, HasType, Sendable, Unread;
    vs := [];
    assert fs[0..] == fs;
    for k := 0 to |ts|
      invariant |vs| == k && forall j :: 0 <= j < k ==> vs[j] == fs[j].v
      invariant Unread(State(b.storage, b.rpos), fs[k..])
    {
      PopKeepsUnread(State(b.storage, b.rpos), fs[k..]);
      assert fs[k..][0] == fs[k] && fs[k..][1..] == fs[k + 1..];
      var v := b.Read(ts[k]);
      vs := vs + [v];
    }
  }

  /** On real buffers: fields written, one of fixed width put over, all read back. The one put over comes back as the
      new value, every other one as it was written. */
  method PutAndReadBack(fs: seq<Field>, i: nat, v: Val) returns (vs: seq<Val>)
    requires FieldsOk(fs) && i < |fs| && FixedWidth(fs[i].t) && FieldOk(Field(fs[i].t, v))
    ensures |vs| == |fs| && forall k :: 0 <= k < |fs| ==> vs[k] == if k == i then v else fs[k].v
  {
    hide Encode, HasType, Sendable, EncodeFields, Overwritten;
    var b := new ByteBuffer();
    var field := new ByteBuffer();
    var at := WriteFields(b, fs, i);
    field.Write(fs[i].t, v);
    assert field.storage == Encode(fs[i].t, v);
    PutFits(fs, i, v);
    b.Put(at, field.storage);
    PutChangesOneField(fs, i, v, b.storage);
    var ts := seq(|fs|, k requires 0 <= k < |fs| => fs[k].t);
    assert b.storage[0..] == b.storage;
    vs := ReadFields(b, ts, fs[i := Field(fs[i].t, v)]);
  }
}
