/**
 * Style detection of the parent `pom.xml`: the line ending and the
 * indentation unit, as `addModules` derives them before editing.
 *
 * The indentation comes from the first find of the regular expression
 * `<project[^>]*>[\r\n]*([ \t]*)<`. `PatternMatch` states what a match of
 * that expression is; `MatchAt` and `FirstMatch` are the deterministic
 * scanner that finds it.
 */
module IndentPattern {
  import opened Wrappers
  import opened Text

  const ProjectTagOpen := "<project"

  /** Used when the pattern finds nothing. */
  const DefaultIndent := "    "

  /** Where one match of the pattern lies: `<project` at `at`, its `>` at `close`, group 1 is `[from, to)`, `<` at `to`. */
  datatype IndentMatch = IndentMatch(at: nat, close: nat, from: nat, to: nat)

  /**
   * The pattern matches `doc` from position `p` with `[^>]*` ending at the
   * `>` at `k`, `[\r\n]*` covering `(k, a)`, group 1 `([ \t]*)` covering
   * `[a, b)` and the final `<` at `b`.
   */
  ghost predicate PatternMatch(doc: string, p: nat, k: nat, a: nat, b: nat)
  {
    && OccursAt(doc, ProjectTagOpen, p)
    && p + |ProjectTagOpen| <= k < a <= b < |doc|
    && (forall i :: p + |ProjectTagOpen| <= i < k ==> doc[i] != '>')
    && doc[k] == '>'
    && (forall i :: k < i < a ==> IsEol(doc[i]))
    && (forall i :: a <= i < b ==> IsBlank(doc[i]))
    && doc[b] == '<'
  }

  /** `m` describes a match of the pattern in `doc`. */
  ghost predicate IsMatch(doc: string, m: IndentMatch)
  {
    PatternMatch(doc, m.at, m.close, m.from, m.to)
  }

  /** No match of the pattern starts before `p`. */
  ghost predicate NoMatchBefore(doc: string, p: nat)
  {
    forall q: nat, k: nat, a: nat, b: nat :: q < p ==> !PatternMatch(doc, q, k, a, b)
  }

  /**
   * Attempts the pattern at `p`. `[^>]*>` can only end at the first `>`
   * after `<project`, and the two greedy runs can give nothing back without
   * the final `<` failing, so one attempt decides the position.
   */
  function MatchAt(doc: string, p: nat): (r: Option<IndentMatch>)
    ensures r.Some? ==> r.value.at == p && IsMatch(doc, r.value)
  {
    CharOccurrences(doc, '>');
    if !OccursAt(doc, ProjectTagOpen, p) then None
    else
      match IndexOfFrom(doc, ">", p + |ProjectTagOpen|)
      case None => None
      case Some(k) =>
        var a := ConsumeEol(doc, k + 1);
        var b := SkipBlanks(doc, a);
        if b < |doc| && doc[b] == '<' then Some(IndentMatch(p, k, a, b)) else None
  }

  /** The first `>` at or after `from` is the one at `k` when none lies in between. */
  lemma FirstCloseAt(doc: string, from: nat, k: nat)
    requires from <= k < |doc| && doc[k] == '>'
    requires forall i :: from <= i < k ==> doc[i] != '>'
    ensures IndexOfFrom(doc, ">", from) == Some(k)
  {
    CharOccurrences(doc, '>');
  }

  /** A run of line breaks from `i` that stops at `a` is what `ConsumeEol` skips. */
  lemma EolRunEndsAt(doc: string, i: nat, a: nat)
    requires i <= a <= |doc|
    requires forall t :: i <= t < a ==> IsEol(doc[t])
    requires a < |doc| ==> !IsEol(doc[a])
    ensures ConsumeEol(doc, i) == a
  {
  }

  /** A run of blanks from `a` that stops at `b` is what `SkipBlanks` skips. */
  lemma BlankRunEndsAt(doc: string, a: nat, b: nat)
    requires a <= b <= |doc|
    requires forall t :: a <= t < b ==> IsBlank(doc[t])
    requires b < |doc| ==> !IsBlank(doc[b])
    ensures SkipBlanks(doc, a) == b
  {
  }

  /** Every match of the pattern at `p` is the one `MatchAt` reports: the match at a position is unique. */
  lemma MatchAtComplete(doc: string, p: nat, k: nat, a: nat, b: nat)
    requires PatternMatch(doc, p, k, a, b)
    ensures MatchAt(doc, p) == Some(IndentMatch(p, k, a, b))
  {
    FirstCloseAt(doc, p + |ProjectTagOpen|, k);
    assert !IsEol(doc[a]) by {
      if a < b {
        assert IsBlank(doc[a]);
      }
    }
    EolRunEndsAt(doc, k + 1, a);
    BlankRunEndsAt(doc, a, b);
    MatchAtSteps(doc, p, k, a, b);
  }

  /** `MatchAt` reports the match its three scans lead to. */
  lemma MatchAtSteps(doc: string, p: nat, k: nat, a: nat, b: nat)
    requires OccursAt(doc, ProjectTagOpen, p)
    requires IndexOfFrom(doc, ">", p + |ProjectTagOpen|) == Some(k)
    requires ConsumeEol(doc, k + 1) == a && SkipBlanks(doc, a) == b
    requires b < |doc| && doc[b] == '<'
    ensures MatchAt(doc, p) == Some(IndentMatch(p, k, a, b))
  {
  }

  /** Where `MatchAt` finds nothing, the pattern has no match at that position. */
  lemma MatchAtNone(doc: string, p: nat)
    requires MatchAt(doc, p).None?
    ensures forall k: nat, a: nat, b: nat :: !PatternMatch(doc, p, k, a, b)
  {
    forall k: nat, a: nat, b: nat | PatternMatch(doc, p, k, a, b)
      ensures false
    {
      MatchAtComplete(doc, p, k, a, b);
    }
  }

  /** The leftmost match starting at or after `from`: what `Matcher.find()` returns. */
  function FirstMatch(doc: string, from: nat): (r: Option<IndentMatch>)
    ensures r.Some? ==> from <= r.value.at && IsMatch(doc, r.value)
    ensures r.Some? ==> forall q: nat, k: nat, a: nat, b: nat :: from <= q < r.value.at ==> !PatternMatch(doc, q, k, a, b)
    ensures r.None? ==> forall q: nat, k: nat, a: nat, b: nat :: from <= q ==> !PatternMatch(doc, q, k, a, b)
    decreases |doc| - from
  {
    if from > |doc| then None
    else
      match MatchAt(doc, from)
      case Some(m) => Some(m)
      case None =>
        var r := FirstMatch(doc, from + 1);
        NoMatchAtFrom(doc, from, r);
        r
  }

  /** A failed attempt at `from` extends what the search from `from + 1` found to the search from `from`. */
  lemma NoMatchAtFrom(doc: string, from: nat, r: Option<IndentMatch>)
    requires MatchAt(doc, from).None?
    requires r.Some? ==> from + 1 <= r.value.at
    requires r.Some? ==> forall q: nat, k: nat, a: nat, b: nat :: from + 1 <= q < r.value.at ==> !PatternMatch(doc, q, k, a, b)
    requires r.None? ==> forall q: nat, k: nat, a: nat, b: nat :: from + 1 <= q ==> !PatternMatch(doc, q, k, a, b)
    ensures r.Some? ==> forall q: nat, k: nat, a: nat, b: nat :: from <= q < r.value.at ==> !PatternMatch(doc, q, k, a, b)
    ensures r.None? ==> forall q: nat, k: nat, a: nat, b: nat :: from <= q ==> !PatternMatch(doc, q, k, a, b)
  {
    MatchAtNone(doc, from);
  }

  /** The indentation unit: group 1 of the first find, or four spaces when there is none. */
  function DetectIndent(doc: string): (r: string)
    ensures forall i :: 0 <= i < |r| ==> IsBlank(r[i])
  {
    match FirstMatch(doc, 0)
    case Some(m) => doc[m.from..m.to]
    case None => DefaultIndent
  }

  /** The line ending: CRLF when the document holds a carriage return anywhere, LF otherwise. */
  function LineEnding(doc: string): (eol: string)
    ensures eol == "\r\n" <==> '\r' in doc
    ensures eol == "\n" <==> '\r' !in doc
  {
    CharOccurrences(doc, '\r');
    if IndexOf(doc, "\r").Some? then "\r\n" else "\n"
  }

  /** Between the `>` and the final `<` of a match there are only line breaks and blanks, so no `<`. */
  lemma NoTagInsideMatch(doc: string, p: nat, k: nat, a: nat, b: nat, i: nat)
    requires PatternMatch(doc, p, k, a, b)
    requires k < i < b
    ensures doc[i] != '<'
  {
    if i < a {
      assert IsEol(doc[i]);
    } else {
      assert IsBlank(doc[i]);
    }
  }

  /**
   * The detected indentation is group 1 of the leftmost match of the
   * pattern, and the four-space default when there is no match.
   */
  lemma DetectIndentIsLeftmostGroup(doc: string)
    ensures (forall q: nat, k: nat, a: nat, b: nat :: !PatternMatch(doc, q, k, a, b)) ==> DetectIndent(doc) == DefaultIndent
    ensures forall p: nat, k: nat, a: nat, b: nat ::
      PatternMatch(doc, p, k, a, b) && NoMatchBefore(doc, p) ==> DetectIndent(doc) == doc[a..b]
  {
    forall p: nat, k: nat, a: nat, b: nat | PatternMatch(doc, p, k, a, b) && NoMatchBefore(doc, p)
      ensures DetectIndent(doc) == doc[a..b]
    {
      LeftmostMatchGivesIndent(doc, p, k, a, b);
    }
  }

  lemma LeftmostMatchGivesIndent(doc: string, p: nat, k: nat, a: nat, b: nat)
    requires PatternMatch(doc, p, k, a, b) && NoMatchBefore(doc, p)
    ensures FirstMatch(doc, 0) == Some(IndentMatch(p, k, a, b))
    ensures DetectIndent(doc) == doc[a..b]
  {
    var m := FirstMatch(doc, 0).value;
    assert m.at == p;
    MatchAtComplete(doc, p, k, a, b);
    MatchAtComplete(doc, p, m.close, m.from, m.to);
  }

  /** A match that ends inside a prefix two documents share is a match in both. */
  lemma MatchInSharedPrefix(doc: string, doc': string, n: nat, q: nat, k: nat, a: nat, b: nat)
    requires n <= |doc| && n <= |doc'| && doc[..n] == doc'[..n]
    requires b < n
    ensures PatternMatch(doc, q, k, a, b) <==> PatternMatch(doc', q, k, a, b)
  {
    if q + |ProjectTagOpen| <= n {
      OccursInSharedPrefix(doc, doc', ProjectTagOpen, n, q);
      forall i | 0 <= i < n ensures doc[i] == doc'[i] {
        assert doc[i] == doc[..n][i];
      }
    }
  }

  /**
   * A match in `doc'` that starts before `p`, where `doc` has `<project` at
   * `p` followed by its first `>` at `close` and the final `<` at `to`, all
   * inside the shared prefix, must itself end inside the prefix.
   */
  lemma EarlierMatchEndsInPrefix(doc: string, doc': string, n: nat, m: IndentMatch, q: nat, k: nat, a: nat, b: nat)
    requires n <= |doc| && n <= |doc'| && doc[..n] == doc'[..n]
    requires IsMatch(doc, m) && m.to < n
    requires q < m.at && PatternMatch(doc', q, k, a, b)
    ensures b < n
  {
    if b >= n {
      forall i | 0 <= i < n ensures doc[i] == doc'[i] {
        assert doc[i] == doc[..n][i];
      }
      if k < m.at {
        NoTagInsideMatch(doc', q, k, a, b, m.at);
      } else {
        NoTagInsideMatch(doc', q, k, a, b, m.to);
      }
    }
  }

  /** The first match of `doc`, inside the shared prefix, is also the first match of `doc'`. */
  lemma FirstMatchInSharedPrefix(doc: string, doc': string, n: nat)
    requires n <= |doc| && n <= |doc'| && doc[..n] == doc'[..n]
    requires FirstMatch(doc, 0).Some? && FirstMatch(doc, 0).value.to < n
    ensures IsMatch(doc', FirstMatch(doc, 0).value)
    ensures NoMatchBefore(doc', FirstMatch(doc, 0).value.at)
  {
    var m := FirstMatch(doc, 0).value;
    MatchInSharedPrefix(doc, doc', n, m.at, m.close, m.from, m.to);
    forall q: nat, k: nat, a: nat, b: nat | q < m.at
      ensures !PatternMatch(doc', q, k, a, b)
    {
      if PatternMatch(doc', q, k, a, b) {
        EarlierMatchEndsInPrefix(doc, doc', n, m, q, k, a, b);
        MatchInSharedPrefix(doc, doc', n, q, k, a, b);
      }
    }
  }

  /**
   * Once the first match lies wholly inside a prefix, no edit after that
   * prefix changes the detected indentation.
   */
  lemma DetectIndentDependsOnPrefix(doc: string, doc': string, n: nat)
    requires n <= |doc| && n <= |doc'| && doc[..n] == doc'[..n]
    requires FirstMatch(doc, 0).Some? && FirstMatch(doc, 0).value.to < n
    ensures DetectIndent(doc') == DetectIndent(doc)
  {
    var m := FirstMatch(doc, 0).value;
    FirstMatchInSharedPrefix(doc, doc', n);
    LeftmostMatchGivesIndent(doc', m.at, m.close, m.from, m.to);
    SliceOfSharedPrefix(doc, doc', n, m.from, m.to);
  }
}
