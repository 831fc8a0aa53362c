/** What CList's operations come to, on the sequence of its elements (List.h). */
module ListOutcomes {

  function InsertAt<T>(s: seq<T>, i: nat, x: T): seq<T>
    requires i <= |s|
  {
    s[..i] + [x] + s[i..]
  }

  function Without<T>(s: seq<T>, i: nat): seq<T>
    requires i < |s|
  {
    s[..i] + s[i + 1..]
  }

  /** A `short`: incrementing and decrementing wrap at 16 bits. */
  function Wrap16(n: int): int {
    (n + 0x8000) % 0x1_0000 - 0x8000
  }

  lemma WrapSteps(n: int)
    ensures Wrap16(Wrap16(n) + 1) == Wrap16(n + 1)
    ensures Wrap16(Wrap16(n) - 1) == Wrap16(n - 1)
  {
  }

  /** The stored count is the length exactly as long as the list has at most 32767 elements; it is always the one number
      of a `short` congruent to the length. */
  lemma CountIsLength(n: nat)
    ensures Wrap16(n) == n <==> n <= 32767
    ensures -32768 <= Wrap16(n) <= 32767 && (n - Wrap16(n)) % 65536 == 0
  {
  }

  /** An operation returns a value and leaves a list; or it leaves a list whose back links are wrong around place `at`;
      or it dereferences null. */
  datatype Outcome =
    | Returned(value: int, elems: seq<int>)
    | BackLinksBroken(elems: seq<int>, at: nat)
    | NullDereference

  function DeleteAtOutcome(s: seq<int>, index: int): Outcome {
    if index == 0 then (if s == [] then Returned(0, []) else Returned(s[0], Without(s, 0)))
    else if index == Wrap16(|s|) - 1 then
      (if s == [] then Returned(0, []) else Returned(s[|s| - 1], Without(s, |s| - 1)))
    else if 0 < index && index + 2 < |s| then Returned(s[index + 1], Without(s, index + 1))
    else NullDereference
  }

  function InsertBeforeOutcome(s: seq<int>, e: int, index: int): Outcome {
    if index == 0 || 0 < index < |s| then Returned(0, InsertAt(s, index, e)) else NullDereference
  }

  function InsertpAfterOutcome(s: seq<int>, e: int, index: int): Outcome {
    if index == Wrap16(|s|) - 1 then Returned(0, InsertAt(s, |s|, e))
    else if 0 < index < |s| then BackLinksBroken(InsertAt(s, index + 1, e), index)
    else NullDereference
  }

  /** DeletePos of the position GetIndexPos gives: a negative index is the head, one beyond the end is null. */
  function DeletePosOutcome(s: seq<int>, index: int): Outcome {
    var i := if index < 0 then 0 else index;
    if i < |s| then Returned(s[i], Without(s, i)) else if s == [] then Returned(0, []) else NullDereference
  }

  // ----- Insertion and deletion, place by place

  /** The sequence with one element more. */
  predicate Gained(s: seq<int>, r: seq<int>, index: int, e: int) {
    && 0 <= index <= |s| && |r| == |s| + 1 && r[index] == e
    && (forall j :: 0 <= j < index ==> r[j] == s[j])
    && (forall j :: index <= j < |s| ==> r[j + 1] == s[j])
  }

  /** The sequence with one element less. */
  predicate Lost(s: seq<int>, r: seq<int>, index: int) {
    && 0 <= index < |s| && |r| == |s| - 1
    && (forall j :: 0 <= j < index ==> r[j] == s[j])
    && (forall j :: index <= j < |r| ==> r[j] == s[j + 1])
  }

  lemma InsertAtMeans(s: seq<int>, index: nat, e: int)
    requires index <= |s|
    ensures forall r :: r == InsertAt(s, index, e) <==> Gained(s, r, index, e)
  {
    var t := InsertAt(s, index, e);
    assert Gained(s, t, index, e);
    forall r | Gained(s, r, index, e) ensures r == t {
      assert forall j :: index < j < |r| ==> r[j] == s[j - 1] by {
        forall j | index < j < |r| ensures r[j] == s[j - 1] { assert r[j - 1 + 1] == s[j - 1]; }
      }
    }
  }

  lemma WithoutMeans(s: seq<int>, index: nat)
    requires index < |s|
    ensures forall r :: r == Without(s, index) <==> Lost(s, r, index)
  {
  }

  /** InsertBefore dereferences null exactly for a negative index and for one beyond the list, 0 excepted; otherwise the
      element stands at the index and all others are as they were, those behind it one place further on. */
  lemma InsertBeforeExactly(s: seq<int>, e: int, index: int)
    ensures InsertBeforeOutcome(s, e, index) == NullDereference <==> index < 0 || (0 < index && |s| <= index)
    ensures 0 <= index < |s| || index == 0 ==>
      && InsertBeforeOutcome(s, e, index).Returned?
      && InsertBeforeOutcome(s, e, index).value == 0
      && Gained(s, InsertBeforeOutcome(s, e, index).elems, index, e)
  {
  }

  /** DeleteAt for every index and up to 32767 elements: null is dereferenced at the index before the tail, unless that
      is the head, at every index behind the tail but 0, and at every negative index, but for -1 on an empty list. */
  lemma DeleteAtCrashesExactly(s: seq<int>, index: int)
    requires |s| <= 32767
    ensures DeleteAtOutcome(s, index) == NullDereference <==>
      (0 < index && |s| <= index + 2 && index + 1 != |s|) || (index < 0 && (s != [] || index != -1))
    ensures s == [] && (index == 0 || index == -1) ==> DeleteAtOutcome(s, index) == Returned(0, [])
    ensures s != [] && DeleteAtOutcome(s, index) != NullDereference ==>
      var at := if index == 0 || index == |s| - 1 then index else index + 1;
      && 0 <= at < |s| && DeleteAtOutcome(s, index).Returned?
      && DeleteAtOutcome(s, index).value == s[at] && Lost(s, DeleteAtOutcome(s, index).elems, at)
  {
    CountIsLength(|s|);
  }

  /** InsertpAfter for every index and up to 32767 elements. */
  lemma InsertpAfterExactly(s: seq<int>, e: int, index: int)
    requires |s| <= 32767
    ensures InsertpAfterOutcome(s, e, index) == NullDereference <==> index + 1 != |s| && (index <= 0 || |s| <= index)
    ensures var o := InsertpAfterOutcome(s, e, index);
      o != NullDereference ==> Gained(s, o.elems, index + 1, e) && (o.Returned? <==> index + 1 == |s|)
  {
    CountIsLength(|s|);
  }

  /** DeletePos at the position of any index: a negative one is the head, one beyond the list null. */
  lemma DeletePosExactly(s: seq<int>, index: int)
    ensures DeletePosOutcome(s, index) == NullDereference <==> s != [] && |s| <= index
    ensures s == [] ==> DeletePosOutcome(s, index) == Returned(0, [])
    ensures s != [] && index < |s| ==>
      var at := if index < 0 then 0 else index;
      && DeletePosOutcome(s, index).Returned? && DeletePosOutcome(s, index).value == s[at]
      && Lost(s, DeletePosOutcome(s, index).elems, at)
  {
  }

  // ----- Where DeleteAt meets its purpose

  /** Removing at b instead of at a, further to the front, is the same exactly when all elements between are equal. */
  lemma WithoutSame(s: seq<int>, a: nat, b: nat)
    requires a <= b < |s|
    ensures Without(s, a) == Without(s, b) <==> forall j :: a <= j < b ==> s[j] == s[j + 1]
  {
    var x, y := Without(s, a), Without(s, b);
    if x == y {
      forall j | a <= j < b ensures s[j] == s[j + 1] { assert y[j] == s[j] && x[j] == s[j + 1]; }
    } else if forall j :: a <= j < b ==> s[j] == s[j + 1] {
      assert forall j :: 0 <= j < |x| ==> x[j] == y[j];
    }
  }

  lemma {:induction false} AllEqual(s: seq<int>, i: nat)
    requires i < |s| && forall j :: i <= j < |s| - 1 ==> s[j] == s[j + 1]
    ensures s[i] == s[|s| - 1]
    decreases |s| - i
  {
    if i == |s| - 1 {
    } else {
      AllEqual(s, i + 1);
    }
  }

  /** DeleteAt removes the element it is asked for if and only if that is the head, or the branch for the tail is
      taken and everything from there on is equal, or the element has two successors and equals the first of them. */
  lemma DeleteAtMeetsPurposeExactly(s: seq<int>, i: nat)
    requires i < |s|
    ensures DeleteAtOutcome(s, i) == Returned(s[i], Without(s, i)) <==>
      i == 0
      || (i == Wrap16(|s|) - 1 && forall j :: i <= j < |s| - 1 ==> s[j] == s[j + 1])
      || (i != Wrap16(|s|) - 1 && i + 2 < |s| && s[i] == s[i + 1])
  {
    WithoutSame(s, i, |s| - 1);
    if forall j :: i <= j < |s| - 1 ==> s[j] == s[j + 1] { AllEqual(s, i); }
    if i + 2 < |s| {
      WithoutSame(s, i, i + 1);
    }
  }

  /** For the lengths the count can hold: the ends are right, the index before the tail crashes, and every other index
      is right only if the next element is equal. */
  lemma DeleteAtInCountRange(s: seq<int>, i: nat)
    requires i < |s| <= 32767
    ensures DeleteAtOutcome(s, i) == Returned(s[i], Without(s, i)) <==>
      i == 0 || i + 1 == |s| || (i + 2 < |s| && s[i] == s[i + 1])
    ensures DeleteAtOutcome(s, i) == NullDereference <==> 0 < i && i + 2 == |s|
  {
    DeleteAtMeetsPurposeExactly(s, i);
    CountIsLength(|s|);
  }

  /** A list on which the wrong element goes, and one on which the code dereferences null. */
  lemma DeleteAtExamples()
    ensures DeleteAtOutcome([10, 20, 30, 40], 1) == Returned(30, [10, 20, 40])
    ensures DeleteAtOutcome([10, 20, 20], 1) == NullDereference
  {
    assert Without([10, 20, 30, 40], 2) == [10, 20, 40];
  }

  // ----- Where InsertpAfter meets its purpose

  lemma {:induction false} EqualFromEnd(s: seq<int>, e: int, i: nat, x: seq<int>)
    requires i < |s| && |x| == |s| + 1 && x[|s|] == e
    requires forall j :: i < j < |s| ==> x[j] == s[j]
    requires forall j :: i + 1 < j <= |s| ==> x[j] == s[j - 1]
    ensures forall j :: i < j < |s| ==> s[j] == e
    decreases |s| - i
  {
    if i + 1 == |s| {
    } else {
      EqualFromEnd(s, e, i + 1, x);
      assert x[i + 2] == s[i + 1];
    }
  }

  /** Inserting e at the end instead of behind place i is the same exactly when everything behind place i equals e. */
  lemma InsertSame(s: seq<int>, e: int, i: nat)
    requires i < |s|
    ensures InsertAt(s, |s|, e) == InsertAt(s, i + 1, e) <==> forall j :: i < j < |s| ==> s[j] == e
  {
    var x, y := InsertAt(s, |s|, e), InsertAt(s, i + 1, e);
    assert forall j :: i + 1 < j < |y| ==> y[j] == s[j - 1];
    if x == y {
      EqualFromEnd(s, e, i, x);
    } else if forall j :: i < j < |s| ==> s[j] == e {
      assert forall j :: 0 <= j < |x| ==> x[j] == y[j];
    }
  }

  /** InsertpAfter inserts behind the element it is asked for if and only if the branch for the tail is taken and every
      element from there on equals the new one. */
  lemma InsertpAfterMeetsPurposeExactly(s: seq<int>, e: int, i: nat)
    requires i < |s|
    ensures InsertpAfterOutcome(s, e, i) == Returned(0, InsertAt(s, i + 1, e))
      <==> i == Wrap16(|s|) - 1 && forall j :: i < j < |s| ==> s[j] == e
  {
    InsertSame(s, e, i);
  }

  /** For the lengths the count can hold: only behind the tail. Behind any other element but the head the back links
      break, and behind a head that is not the tail the code dereferences null. */
  lemma InsertpAfterInCountRange(s: seq<int>, e: int, i: nat)
    requires i < |s| <= 32767
    ensures InsertpAfterOutcome(s, e, i) == Returned(0, InsertAt(s, i + 1, e)) <==> i + 1 == |s|
    ensures InsertpAfterOutcome(s, e, i) == BackLinksBroken(InsertAt(s, i + 1, e), i) <==> 0 < i && i + 1 < |s|
    ensures InsertpAfterOutcome(s, e, i) == NullDereference <==> i == 0 && 1 < |s|
  {
    InsertpAfterMeetsPurposeExactly(s, e, i);
    CountIsLength(|s|);
  }

  /** A list on which the back links break, and one on which the code dereferences null. */
  lemma InsertpAfterExamples()
    ensures InsertpAfterOutcome([10, 20, 30], 99, 1) == BackLinksBroken([10, 20, 99, 30], 1)
    ensures InsertpAfterOutcome([10, 20], 99, 0) == NullDereference
  {
    assert InsertAt([10, 20, 30], 2, 99) == [10, 20, 99, 30];
  }
}
