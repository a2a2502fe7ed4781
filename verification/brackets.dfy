/**
 Loop-bracket matching. The interpreter stores no jump table: each taken jump
 rescans the program, counting nesting depth, for the partner bracket. A
 bracket without a partner makes the scan return the index it started from.

 Nesting is described by the running sum of `Delta` over a stretch of the
 program (`[` counts +1, `]` counts -1): a stretch is balanced when the sum
 ends at zero without ever dropping below it.
 */
module Brackets {
  import opened Tokens

  function Delta(t: Token): int
  {
    match t
    case LoopStart => 1
    case LoopEnd => -1
    case _ => 0
  }

  /** The nesting change over `ts[a..b]`. */
  function Level(ts: seq<Token>, a: int, b: int): int
    requires 0 <= a <= b <= |ts|
    decreases b - a
  {
    if a == b then 0 else Level(ts, a, b - 1) + Delta(ts[b - 1])
  }

  /** Nesting changes add up over adjacent stretches. */
  lemma {:induction false} LevelSplit(ts: seq<Token>, a: int, m: int, b: int)
    requires 0 <= a <= m <= b <= |ts|
    ensures Level(ts, a, b) == Level(ts, a, m) + Level(ts, m, b)
    decreases b - m
  {
    if m < b {
      LevelSplit(ts, a, m, b - 1);
    }
  }

  /** The depth never drops below its start anywhere in `ts[a..b]`. */
  predicate NeverBelow(ts: seq<Token>, a: int, b: int)
    requires 0 <= a <= b <= |ts|
  {
    forall m :: a <= m <= b ==> Level(ts, a, m) >= 0
  }

  /** `ts[a..b]` is a well-nested bracket sequence (other tokens ignored). */
  predicate Balanced(ts: seq<Token>, a: int, b: int)
    requires 0 <= a <= b <= |ts|
  {
    Level(ts, a, b) == 0 && NeverBelow(ts, a, b)
  }

  /** `ts[j]` is the `]` that closes a bracket opened at `s`. */
  predicate ClosesAt(ts: seq<Token>, s: int, j: int)
  {
    0 <= s < j < |ts| && ts[j] == LoopEnd && Balanced(ts, s + 1, j)
  }

  /** `ts[i]` is the `[` that a bracket at `e` closes. */
  predicate OpensAt(ts: seq<Token>, i: int, e: int)
  {
    0 <= i < e <= |ts| && ts[i] == LoopStart && Balanced(ts, i + 1, e)
  }

  lemma LevelStep(ts: seq<Token>, a: int, b: int)
    requires 0 <= a <= b < |ts|
    ensures Level(ts, a, b + 1) == Level(ts, a, b) + Delta(ts[b])
  {
  }

  lemma ExtendNeverBelow(ts: seq<Token>, a: int, b: int)
    requires 0 <= a <= b < |ts| && NeverBelow(ts, a, b)
    ensures Level(ts, a, b + 1) >= 0 ==> NeverBelow(ts, a, b + 1)
  {
  }

  /** A bracket has at most one closing partner. */
  lemma ClosesAtUnique(ts: seq<Token>, s: int, j1: int, j2: int)
    requires ClosesAt(ts, s, j1) && ClosesAt(ts, s, j2)
    ensures j1 == j2
  {
    if j1 < j2 {
      LevelStep(ts, s + 1, j1);
    } else if j2 < j1 {
      LevelStep(ts, s + 1, j2);
    }
  }

  /** The closing partner is where the scan's depth counter first returns to
      zero: it stays positive after every token strictly between the brackets. */
  lemma ClosesAtFirstZero(ts: seq<Token>, s: int, j: int)
    requires ClosesAt(ts, s, j)
    ensures 1 + Level(ts, s + 1, j + 1) == 0
    ensures var a := s + 1; forall m :: a < m <= j ==> 1 + Level(ts, a, m) > 0
  {
    LevelStep(ts, s + 1, j);
  }

  /** A bracket has at most one opening partner. */
  lemma OpensAtUnique(ts: seq<Token>, i1: int, i2: int, e: int)
    requires OpensAt(ts, i1, e) && OpensAt(ts, i2, e)
    ensures i1 == i2
  {
    if i1 < i2 {
      LevelAcrossOpener(ts, i1 + 1, i2, e);
    } else if i2 < i1 {
      LevelAcrossOpener(ts, i2 + 1, i1, e);
    }
  }

  /** Across a `[` whose own loop is balanced up to `e`, the depth rises by one. */
  lemma LevelAcrossOpener(ts: seq<Token>, a: int, i: int, e: int)
    requires 0 <= a <= i && OpensAt(ts, i, e)
    ensures Level(ts, a, e) == Level(ts, a, i) + 1
  {
    LevelSplit(ts, a, i, e);
    LevelSplit(ts, i, i + 1, e);
  }

  /** The depth test of the backward scan, restated as balance. */
  lemma BalancedFromSuffixes(ts: seq<Token>, a: int, b: int)
    requires 0 <= a <= b <= |ts|
    requires Level(ts, a, b) == 0
    requires forall m :: a <= m <= b ==> Level(ts, m, b) <= 0
    ensures Balanced(ts, a, b)
  {
    forall m | a <= m <= b
      ensures Level(ts, a, m) >= 0
    {
      LevelSplit(ts, a, m, b);
    }
  }

  /** The loop of `findMatchingLoopEnd` from index `i` on, with `level` the
      current depth; it has seen the depth stay positive since `s`. */
  function ScanForward(ts: seq<Token>, s: int, i: int, level: int): (r: int)
    requires 0 <= s < i <= |ts|
    requires level == 1 + Level(ts, s + 1, i)
    requires NeverBelow(ts, s + 1, i)
    ensures r == s || ClosesAt(ts, s, r)
    ensures r == s ==> forall j :: i <= j < |ts| ==> !ClosesAt(ts, s, j)
    decreases |ts| - i
  {
    if i == |ts| then s
    else
      LevelStep(ts, s + 1, i);
      ExtendNeverBelow(ts, s + 1, i);
      var t := ts[i];
      if t == LoopStart then ScanForward(ts, s, i + 1, level + 1)
      else if t == LoopEnd then
        if level - 1 == 0 then i else ScanForward(ts, s, i + 1, level - 1)
      else ScanForward(ts, s, i + 1, level)
  }

  /** `findMatchingLoopEnd`: the `]` closing the bracket at `s`, or `s` itself
      when there is none. */
  function FindLoopEnd(ts: seq<Token>, s: nat): (r: nat)
    ensures r == s || ClosesAt(ts, s, r)
    ensures r == s ==> forall j :: s < j < |ts| ==> !ClosesAt(ts, s, j)
  {
    if s + 1 > |ts| then s else ScanForward(ts, s, s + 1, 1)
  }

  /** The loop of `findMatchingLoopStart` from index `i` down, with `level` the
      current depth; it has seen the depth stay positive since `e`. */
  function ScanBackward(ts: seq<Token>, e: int, i: int, level: int): (r: int)
    requires -1 <= i < e <= |ts|
    requires level == 1 - Level(ts, i + 1, e)
    requires forall m :: i + 1 <= m <= e ==> Level(ts, m, e) <= 0
    ensures r == e || OpensAt(ts, r, e)
    ensures r == e ==> forall k :: 0 <= k <= i ==> !OpensAt(ts, k, e)
    decreases i + 1
  {
    if i < 0 then e
    else
      LevelSplit(ts, i, i + 1, e);
      var t := ts[i];
      if t == LoopEnd then ScanBackward(ts, e, i - 1, level + 1)
      else if t == LoopStart then
        if level - 1 == 0 then
          BalancedFromSuffixes(ts, i + 1, e);
          i
        else ScanBackward(ts, e, i - 1, level - 1)
      else ScanBackward(ts, e, i - 1, level)
  }

  /** `findMatchingLoopStart`: the `[` that the bracket at `e` closes, or `e`
      itself when there is none. */
  function FindLoopStart(ts: seq<Token>, e: nat): (r: nat)
    requires e <= |ts|
    ensures r == e || OpensAt(ts, r, e)
    ensures r == e ==> forall i :: 0 <= i < e ==> !OpensAt(ts, i, e)
  {
    ScanBackward(ts, e, e - 1, 1)
  }

  /** The forward scan finds a partner as soon as the depth would reach zero
      somewhere ahead. */
  lemma {:induction false} ScanForwardFinds(ts: seq<Token>, s: int, i: int, level: int, k: int)
    requires 0 <= s < i <= |ts|
    requires level == 1 + Level(ts, s + 1, i)
    requires NeverBelow(ts, s + 1, i)
    requires i <= k <= |ts| && 1 + Level(ts, s + 1, k) <= 0
    ensures ScanForward(ts, s, i, level) != s
    decreases |ts| - i
  {
    assert Level(ts, s + 1, i) >= 0;
    if !(ts[i] == LoopEnd && level == 1) {
      ScanForwardFinds(ts, s, i + 1, level + Delta(ts[i]), k);
    }
  }

  /** The backward scan finds a partner as soon as the depth would reach zero
      somewhere behind. */
  lemma {:induction false} ScanBackwardFinds(ts: seq<Token>, e: int, i: int, level: int, k: int)
    requires -1 <= i < e <= |ts|
    requires level == 1 - Level(ts, i + 1, e)
    requires forall m :: i + 1 <= m <= e ==> Level(ts, m, e) <= 0
    requires 0 <= k <= i + 1 && 1 - Level(ts, k, e) <= 0
    ensures ScanBackward(ts, e, i, level) != e
    decreases i + 1
  {
    assert Level(ts, i + 1, e) <= 0;
    LevelSplit(ts, i, i + 1, e);
    if !(ts[i] == LoopStart && level == 1) {
      ScanBackwardFinds(ts, e, i - 1, level - Delta(ts[i]), k);
    }
  }

  /** Matching forward and then back returns to the `[` the scan started from. */
  lemma EndThenStart(ts: seq<Token>, i: nat)
    requires i < |ts| && ts[i] == LoopStart
    requires FindLoopEnd(ts, i) != i
    ensures FindLoopStart(ts, FindLoopEnd(ts, i)) == i
  {
    var j := FindLoopEnd(ts, i);
    assert OpensAt(ts, i, j);
    OpensAtUnique(ts, i, FindLoopStart(ts, j), j);
  }

  /** Matching backward and then forward returns to the `]` the scan started from. */
  lemma StartThenEnd(ts: seq<Token>, e: nat)
    requires e < |ts| && ts[e] == LoopEnd
    requires FindLoopStart(ts, e) != e
    ensures FindLoopEnd(ts, FindLoopStart(ts, e)) == e
  {
    var i := FindLoopStart(ts, e);
    assert ClosesAt(ts, i, e);
    ClosesAtUnique(ts, i, FindLoopEnd(ts, i), e);
  }

  /** In a balanced program every `[` has a closing partner. */
  lemma BalancedStartMatches(ts: seq<Token>, i: nat)
    requires Balanced(ts, 0, |ts|)
    requires i < |ts| && ts[i] == LoopStart
    ensures ClosesAt(ts, i, FindLoopEnd(ts, i))
  {
    LevelSplit(ts, 0, i, |ts|);
    LevelSplit(ts, i, i + 1, |ts|);
    assert Level(ts, 0, i) >= 0;
    ScanForwardFinds(ts, i, i + 1, 1, |ts|);
  }

  /** In a balanced program every `]` has an opening partner. */
  lemma BalancedEndMatches(ts: seq<Token>, e: nat)
    requires Balanced(ts, 0, |ts|)
    requires e < |ts| && ts[e] == LoopEnd
    ensures OpensAt(ts, FindLoopStart(ts, e), e)
  {
    assert Level(ts, 0, e + 1) >= 0;
    ScanBackwardFinds(ts, e, e - 1, 1, 0);
  }

  /** On a balanced program the two matchers are inverse to each other on
      every bracket. */
  lemma BalancedRoundTrip(ts: seq<Token>, k: nat)
    requires Balanced(ts, 0, |ts|)
    requires k < |ts|
    ensures ts[k] == LoopStart ==> FindLoopStart(ts, FindLoopEnd(ts, k)) == k
    ensures ts[k] == LoopEnd ==> FindLoopEnd(ts, FindLoopStart(ts, k)) == k
  {
    if ts[k] == LoopStart {
      BalancedStartMatches(ts, k);
      EndThenStart(ts, k);
    } else if ts[k] == LoopEnd {
      BalancedEndMatches(ts, k);
      StartThenEnd(ts, k);
    }
  }
}
