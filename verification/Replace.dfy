/** In-place replacement of every occurrence in a string (ReplaceAllDistinct in Global.cpp). */
module Replace {

  type Chars = seq<char>

  /** `old` stands at place `at` of `s`. */
  predicate OccursAt(s: Chars, oldValue: Chars, at: nat) {
    at + |oldValue| <= |s| && s[at..at + |oldValue|] == oldValue
  }

  /** The value occurs where the string can be cut into what stands before it, the value, and what stands behind it. */
  lemma OccursMeans(s: Chars, oldValue: Chars, at: nat)
    ensures OccursAt(s, oldValue, at) <==> exists a: Chars, b: Chars :: s == a + oldValue + b && |a| == at
  {
    if OccursAt(s, oldValue, at) {
      assert s == s[..at] + oldValue + s[at + |oldValue|..];
    }
  }

  lemma SuffixOccurs(s: Chars, start: nat, oldValue: Chars, i: nat)
    requires start <= |s|
    ensures OccursAt(s[start..], oldValue, i) == OccursAt(s, oldValue, start + i)
  {
    if start + i + |oldValue| <= |s| {
      assert s[start..][i..i + |oldValue|] == s[start + i..start + i + |oldValue|];
    }
  }

  /** The leftmost, non-overlapping replacement, read off the original string alone. */
  function Replaced(s: Chars, oldValue: Chars, newValue: Chars): Chars
    requires oldValue != []
    decreases |s|
  {
    if s == [] then []
    else if OccursAt(s, oldValue, 0) then newValue + Replaced(s[|oldValue|..], oldValue, newValue)
    else [s[0]] + Replaced(s[1..], oldValue, newValue)
  }

  /** Before the first occurrence nothing changes. */
  lemma {:induction false} ReplacedSkips(s: Chars, oldValue: Chars, newValue: Chars, at: nat)
    requires oldValue != [] && at <= |s|
    requires forall i: nat :: i < at ==> !OccursAt(s, oldValue, i)
    ensures Replaced(s, oldValue, newValue) == s[..at] + Replaced(s[at..], oldValue, newValue)
    decreases at
  {
    if at == 0 {
      assert s[0..] == s;
    } else {
      forall i: nat | i < at - 1 ensures !OccursAt(s[1..], oldValue, i) { SuffixOccurs(s, 1, oldValue, i); }
      ReplacedSkips(s[1..], oldValue, newValue, at - 1);
      assert s[1..][at - 1..] == s[at..];
      assert [s[0]] + s[1..][..at - 1] == s[..at];
    }
  }

  lemma ReplacedHead(s: Chars, oldValue: Chars, newValue: Chars)
    requires oldValue != [] && OccursAt(s, oldValue, 0)
    ensures Replaced(s, oldValue, newValue) == newValue + Replaced(s[|oldValue|..], oldValue, newValue)
  {
  }

  /** With no occurrence at all the string is its own replacement. */
  lemma ReplacedNone(s: Chars, oldValue: Chars, newValue: Chars)
    requires oldValue != [] && forall i: nat :: !OccursAt(s, oldValue, i)
    ensures Replaced(s, oldValue, newValue) == s
  {
    ReplacedSkips(s, oldValue, newValue, |s|);
    assert s[..|s|] == s;
  }

  /** The string is kept up to the first occurrence, that is exchanged, and the same is done to what follows it. */
  lemma ReplacedFirst(a: Chars, b: Chars, oldValue: Chars, newValue: Chars)
    requires oldValue != [] && forall i: nat :: i < |a| ==> !OccursAt(a + oldValue + b, oldValue, i)
    ensures Replaced(a + oldValue + b, oldValue, newValue) == a + newValue + Replaced(b, oldValue, newValue)
  {
    hide OccursAt, Replaced;
    var s := a + oldValue + b;
    ReplacedSkips(s, oldValue, newValue, |a|);
    assert s[..|a|] == a && s[|a|..] == oldValue + b && (oldValue + b)[|oldValue|..] == b;
    OccursMeans(oldValue + b, oldValue, 0);
    assert oldValue + b == [] + oldValue + b;
    ReplacedHead(oldValue + b, oldValue, newValue);
  }

  /** The early return for equal values is sound. */
  lemma {:induction false} ReplacedBySelf(s: Chars, oldValue: Chars)
    requires oldValue != []
    ensures Replaced(s, oldValue, oldValue) == s
    decreases |s|
  {
    if s == [] {
    } else {
      if OccursAt(s, oldValue, 0) {
        ReplacedBySelf(s[|oldValue|..], oldValue);
        assert s == s[..|oldValue|] + s[|oldValue|..];
      } else {
        ReplacedBySelf(s[1..], oldValue);
        assert s == [s[0]] + s[1..];
      }
    }
  }

  // ----- An independent reading: cutting the string at its occurrences

  /** The pieces between the occurrences, found from the left. */
  function Pieces(s: Chars, oldValue: Chars): (ps: seq<Chars>)
    requires oldValue != []
    ensures ps != []
    decreases |s|
  {
    if s == [] then [[]]
    else if OccursAt(s, oldValue, 0) then [[]] + Pieces(s[|oldValue|..], oldValue)
    else var ps := Pieces(s[1..], oldValue); [[s[0]] + ps[0]] + ps[1..]
  }

  function Joined(ps: seq<Chars>, glue: Chars): Chars {
    if ps == [] then [] else if |ps| == 1 then ps[0] else ps[0] + glue + Joined(ps[1..], glue)
  }

  lemma JoinedPrepend(c: char, ps: seq<Chars>, glue: Chars)
    requires ps != []
    ensures Joined([[c] + ps[0]] + ps[1..], glue) == [c] + Joined(ps, glue)
  {
    var qs := [[c] + ps[0]] + ps[1..];
    assert qs[1..] == ps[1..];
  }

  /** Joining the same pieces with the old value gives the original back, with the new value the replacement: what
      lies between occurrences is kept, every occurrence is exchanged, and inserted text is never looked at. */
  lemma {:induction false} ReplacedExchangesGlue(s: Chars, oldValue: Chars, newValue: Chars)
    requires oldValue != []
    ensures Joined(Pieces(s, oldValue), oldValue) == s
    ensures Joined(Pieces(s, oldValue), newValue) == Replaced(s, oldValue, newValue)
    decreases |s|
  {
    if s == [] {
    } else {
      if OccursAt(s, oldValue, 0) {
        var t := s[|oldValue|..];
        ReplacedExchangesGlue(t, oldValue, newValue);
        assert ([[]] + Pieces(t, oldValue))[1..] == Pieces(t, oldValue);
        assert [] + oldValue == oldValue && [] + newValue == newValue;
        assert s == oldValue + t;
      } else {
        ReplacedExchangesGlue(s[1..], oldValue, newValue);
        JoinedPrepend(s[0], Pieces(s[1..], oldValue), oldValue);
        JoinedPrepend(s[0], Pieces(s[1..], oldValue), newValue);
        assert s == [s[0]] + s[1..];
      }
    }
  }

  /** The first piece ends where the old value first occurs, and the others are the pieces of what follows that
      occurrence; a single piece is the whole string, in which the old value does not occur. */
  ghost predicate Leftmost(s: Chars, oldValue: Chars, ps: seq<Chars>)
    requires oldValue != []
  {
    && ps != []
    && (forall i: nat :: i < |ps[0]| ==> !OccursAt(s, oldValue, i))
    && (|ps| > 1 ==> OccursAt(s, oldValue, |ps[0]|) && ps[1..] == Pieces(s[|ps[0]| + |oldValue|..], oldValue))
    && (|ps| == 1 ==> ps[0] == s && forall i: nat :: !OccursAt(s, oldValue, i))
  }

  lemma CutShifts(s: Chars, oldValue: Chars, at: nat)
    requires s != [] && OccursAt(s[1..], oldValue, at)
    ensures at + 1 + |oldValue| <= |s| && OccursAt(s, oldValue, at + 1)
    ensures s[1..][at + |oldValue|..] == s[at + 1 + |oldValue|..]
  {
    SuffixOccurs(s, 1, oldValue, at);
  }

  lemma FirstPieceLonger(s: Chars, oldValue: Chars)
    requires oldValue != [] && s != [] && !OccursAt(s, oldValue, 0)
    ensures var ps, qs := Pieces(s, oldValue), Pieces(s[1..], oldValue);
      |ps| == |qs| && ps[0] == [s[0]] + qs[0] && ps[1..] == qs[1..]
  {
    hide OccursAt;
  }

  lemma LeftmostLonger(s: Chars, oldValue: Chars)
    requires oldValue != [] && s != [] && !OccursAt(s, oldValue, 0)
    requires Leftmost(s[1..], oldValue, Pieces(s[1..], oldValue))
    ensures Leftmost(s, oldValue, Pieces(s, oldValue))
  {
    hide OccursAt, Pieces;
    var ps, qs := Pieces(s, oldValue), Pieces(s[1..], oldValue);
    FirstPieceLonger(s, oldValue);
    if |qs| > 1 {
      CutShifts(s, oldValue, |qs[0]|);
    }
    forall i: nat | i < |ps[0]| || |ps| == 1 ensures !OccursAt(s, oldValue, i) {
      if 0 < i {
        SuffixOccurs(s, 1, oldValue, i - 1);
      }
    }
  }

  /** No piece contains the old value, and no occurrence begins inside a piece and runs into the glue after it:
      each cut is the leftmost one possible. */
  lemma {:induction false} PiecesAreLeftmost(s: Chars, oldValue: Chars)
    requires oldValue != []
    ensures Leftmost(s, oldValue, Pieces(s, oldValue))
    decreases |s|
  {
    if s == [] || OccursAt(s, oldValue, 0) {
    } else {
      hide Leftmost;
      PiecesAreLeftmost(s[1..], oldValue);
      LeftmostLonger(s, oldValue);
    }
  }

  // ----- The string object

  const NPOS: int := -1

  /** One turn of the loop. */
  lemma OneExchange(s: Chars, start: nat, at: nat, oldValue: Chars, newValue: Chars)
    requires oldValue != [] && start <= at && OccursAt(s, oldValue, at)
    requires forall i: nat :: start <= i < at ==> !OccursAt(s, oldValue, i)
    ensures var t := s[..at] + newValue + s[at + |oldValue|..]; var pos := at + |newValue|;
      && pos <= |t| && |t| - pos < |s| - start
      && t[..pos] + Replaced(t[pos..], oldValue, newValue) == s[..start] + Replaced(s[start..], oldValue, newValue)
  {
    hide Replaced;
    var t, pos, rest := s[..at] + newValue + s[at + |oldValue|..], at + |newValue|, s[start..];
    forall i: nat | i < at - start ensures !OccursAt(rest, oldValue, i) { SuffixOccurs(s, start, oldValue, i); }
    ReplacedSkips(rest, oldValue, newValue, at - start);
    SuffixOccurs(s, at, oldValue, 0);
    ReplacedHead(s[at..], oldValue, newValue);
    assert rest[at - start..] == s[at..] && rest[..at - start] == s[start..at];
    assert s[at..][|oldValue|..] == s[at + |oldValue|..];
    assert t[pos..] == s[at + |oldValue|..];
    assert t[..pos] == s[..start] + s[start..at] + newValue;
  }

  lemma RestUntouched(s: Chars, start: nat, oldValue: Chars, newValue: Chars)
    requires oldValue != [] && start <= |s|
    requires forall i: nat :: start <= i ==> !OccursAt(s, oldValue, i)
    ensures s[..start] + Replaced(s[start..], oldValue, newValue) == s
  {
    forall i: nat ensures !OccursAt(s[start..], oldValue, i) { SuffixOccurs(s, start, oldValue, i); }
    ReplacedNone(s[start..], oldValue, newValue);
  }

  class MutableString {
    var chars: Chars

    constructor (chars: Chars)
      ensures this.chars == chars
    {
      this.chars := chars;
    }

    /** std::string::find: the first occurrence at or after `pos`. */
    method Find(oldValue: Chars, pos: nat) returns (at: int)
      requires oldValue != []
      ensures at == -1 || pos <= at
      ensures at == NPOS ==> forall i: nat :: pos <= i ==> !OccursAt(chars, oldValue, i)
      ensures at != NPOS ==>
        && pos <= at && at + |oldValue| <= |chars| && chars[at..at + |oldValue|] == oldValue
        && OccursAt(chars, oldValue, at)
        && forall i: nat :: pos <= i < at ==> !OccursAt(chars, oldValue, i)
    {
      at := pos;
      while at + |oldValue| <= |chars|
        invariant pos <= at && forall i: nat :: pos <= i < at ==> !OccursAt(chars, oldValue, i)
        decreases |chars| - at
      {
        if OccursAt(chars, oldValue, at) {
          return;
        }
        at := at + 1;
      }
      at := NPOS;
    }

    /** std::string::replace of `count` characters at `pos`. */
    method ReplaceAt(pos: nat, count: nat, value: Chars)
      requires pos + count <= |chars|
      modifies this
      ensures chars == old(chars[..pos]) + value + old(chars[pos + count..])
    {
      chars := chars[..pos] + value + chars[pos + count..];
    }

    /** ReplaceAllDistinct: what stands before `pos` is final, what stands behind it is still the original's rest. */
    method ReplaceAllDistinct(oldValue: Chars, newValue: Chars)
      modifies this
      ensures chars == if oldValue == [] then old(chars) else Replaced(old(chars), oldValue, newValue)
    {
      hide Replaced, OccursAt;
      if |oldValue| == 0 {
        return;
      }
      if oldValue == newValue {
        ReplacedBySelf(chars, oldValue);
        return;
      }
      var pos: int := 0;
      assert chars[0..] == chars;
      while pos != NPOS
        invariant 0 <= pos <= |chars|
        invariant chars[..pos] + Replaced(chars[pos..], oldValue, newValue) == Replaced(old(chars), oldValue, newValue)
        decreases |chars| - pos
      {
        ghost var before, start := chars, pos;
        pos := Find(oldValue, pos);
        if pos != NPOS {
          ReplaceAt(pos, |oldValue|, newValue);
          OneExchange(before, start, pos, oldValue, newValue);
        } else {
          RestUntouched(chars, start, oldValue, newValue);
          break;
        }
        pos := pos + |newValue|;
      }
    }
  }
}
