/**
 * Substring search over `string` (= `seq<char>`), following the semantics of
 * Java's `indexOf(String)`, `indexOf(String, int)` and `lastIndexOf(String)`
 * with the absent case as `None` instead of `-1`.
 */
module Text {
  import opened Wrappers

  /** `pat` occurs in `s` starting at index `i`. */
  predicate OccursAt(s: string, pat: string, i: nat)
  {
    i + |pat| <= |s| && s[i..i + |pat|] == pat
  }

  /** `pat` occurs nowhere in `s`. */
  predicate Absent(s: string, pat: string)
  {
    forall j: nat :: j <= |s| ==> !OccursAt(s, pat, j)
  }

  /** Leftmost occurrence of `pat` in `s` at or after index `from`. */
  function IndexOfFrom(s: string, pat: string, from: nat): (r: Option<nat>)
    ensures r.Some? ==> from <= r.value && OccursAt(s, pat, r.value)
    ensures r.Some? ==> forall j: nat :: from <= j < r.value ==> !OccursAt(s, pat, j)
    ensures r.None? ==> forall j: nat :: from <= j ==> !OccursAt(s, pat, j)
    decreases |s| - from
  {
    if from + |pat| > |s| then None
    else if OccursAt(s, pat, from) then Some(from)
    else IndexOfFrom(s, pat, from + 1)
  }

  /** Leftmost occurrence of `pat` in `s` (Java `indexOf`). */
  function IndexOf(s: string, pat: string): (r: Option<nat>)
    ensures r.Some? ==> OccursAt(s, pat, r.value)
    ensures r.Some? ==> forall j: nat :: j < r.value ==> !OccursAt(s, pat, j)
    ensures r.None? <==> Absent(s, pat)
  {
    IndexOfFrom(s, pat, 0)
  }

  /** Rightmost occurrence of `pat` in `s` starting strictly below `upto`. */
  function LastIndexBelow(s: string, pat: string, upto: nat): (r: Option<nat>)
    ensures r.Some? ==> r.value < upto && OccursAt(s, pat, r.value)
    ensures r.Some? ==> forall j: nat :: r.value < j < upto ==> !OccursAt(s, pat, j)
    ensures r.None? ==> forall j: nat :: j < upto ==> !OccursAt(s, pat, j)
    decreases upto
  {
    if upto == 0 then None
    else if OccursAt(s, pat, upto - 1) then Some(upto - 1)
    else LastIndexBelow(s, pat, upto - 1)
  }

  /** Rightmost occurrence of `pat` in `s` (Java `lastIndexOf`). */
  function LastIndexOf(s: string, pat: string): (r: Option<nat>)
    ensures r.Some? ==> OccursAt(s, pat, r.value)
    ensures r.Some? ==> forall j: nat :: r.value < j ==> !OccursAt(s, pat, j)
    ensures r.None? <==> Absent(s, pat)
  {
    LastIndexBelow(s, pat, |s| + 1)
  }

  /** A one-character pattern occurs exactly where that character is. */
  lemma CharOccurrences(s: string, c: char)
    ensures forall k: nat :: OccursAt(s, [c], k) <==> k < |s| && s[k] == c
  {
    forall k: nat
      ensures OccursAt(s, [c], k) <==> k < |s| && s[k] == c
    {
      if k < |s| {
        assert s[k..k + 1] == [s[k]];
      }
    }
  }

  /** The leftmost occurrence of `pat` in `s` starts at `i`. */
  predicate FirstAt(s: string, pat: string, i: nat)
  {
    OccursAt(s, pat, i) && forall j: nat :: j < i ==> !OccursAt(s, pat, j)
  }

  /** The leftmost occurrence is unique: any occurrence with none before it is the one found. */
  lemma IndexOfIsLeast(s: string, pat: string, i: nat)
    requires FirstAt(s, pat, i)
    ensures IndexOf(s, pat) == Some(i)
  {
  }

  /** An occurrence lying wholly inside a prefix `s[..n]` is one in `t` when `t` keeps that prefix. */
  lemma OccursInSharedPrefix(s: string, t: string, pat: string, n: nat, j: nat)
    requires n <= |s| && n <= |t| && s[..n] == t[..n]
    requires j + |pat| <= n
    ensures OccursAt(s, pat, j) <==> OccursAt(t, pat, j)
  {
    assert s[j..j + |pat|] == s[..n][j..j + |pat|];
    assert t[j..j + |pat|] == t[..n][j..j + |pat|];
  }

  /** Two strings that share a prefix agree on every slice inside it. */
  lemma SliceOfSharedPrefix(s: string, t: string, n: nat, i: nat, j: nat)
    requires n <= |s| && n <= |t| && s[..n] == t[..n]
    requires i <= j <= n
    ensures s[i..j] == t[i..j]
  {
    forall k | 0 <= k < j - i
      ensures s[i..j][k] == t[i..j][k]
    {
      assert s[..n][i + k] == t[..n][i + k];
    }
  }

  /** Occurrences inside the right operand of a concatenation, shifted by the left length. */
  lemma OccursInRight(x: string, y: string, pat: string, j: nat)
    ensures OccursAt(x + y, pat, |x| + j) <==> OccursAt(y, pat, j)
  {
    if j + |pat| <= |y| {
      assert (x + y)[|x| + j..|x| + j + |pat|] == y[j..j + |pat|];
    }
  }

  /** Concatenation is associative. */
  lemma Assoc<T>(a: seq<T>, b: seq<T>, c: seq<T>)
    ensures a + (b + c) == a + b + c
  {
  }

  /** Cutting `a + b` at the end of `a`. */
  lemma TwoPieces<T>(a: seq<T>, b: seq<T>)
    ensures (a + b)[..|a|] == a && (a + b)[|a|..] == b
  {
  }

  /** Cutting `a + (b + c)` at the ends of `a` and of `b`. */
  lemma ThreePieces<T>(a: seq<T>, b: seq<T>, c: seq<T>)
    ensures (a + (b + c))[..|a|] == a
    ensures (a + (b + c))[|a| + |b|..] == c
  {
    assert (a + (b + c))[|a|..] == b + c;
  }

  /** Line-break characters, the class `[\r\n]`. */
  predicate IsEol(c: char)
  {
    c == '\r' || c == '\n'
  }

  /** Horizontal blanks, the class `[ \t]`. */
  predicate IsBlank(c: char)
  {
    c == ' ' || c == '\t'
  }

  /**
   * The least position at or after `i` that holds a character other than
   * CR or LF, or `|s|` when there is none: `consumeEol` of the synchronizer,
   * and the greedy `[\r\n]*` of the indentation pattern.
   */
  function ConsumeEol(s: string, i: nat): (j: nat)
    requires i <= |s|
    ensures i <= j <= |s|
    ensures forall t :: i <= t < j ==> IsEol(s[t])
    ensures j < |s| ==> !IsEol(s[j])
    decreases |s| - i
  {
    if i < |s| && IsEol(s[i]) then ConsumeEol(s, i + 1) else i
  }

  /** The end of the maximal run of blanks starting at `i` (greedy `[ \t]*`). */
  function SkipBlanks(s: string, i: nat): (j: nat)
    requires i <= |s|
    ensures i <= j <= |s|
    ensures forall t :: i <= t < j ==> IsBlank(s[t])
    ensures j < |s| ==> !IsBlank(s[j])
    decreases |s| - i
  {
    if i < |s| && IsBlank(s[i]) then SkipBlanks(s, i + 1) else i
  }
}
