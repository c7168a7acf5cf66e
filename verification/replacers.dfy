/**
 * The artifact-id rewriting chain of the plugin (`Replacers`, GenerateTestModulesMojo.java:366-419):
 * a string of `/pattern/replacement/` tokens is split into tokens, each
 * token is parsed into a rule, and the rules are applied left to right.
 *
 * Java's regular expressions stay abstract: whether a pattern compiles
 * (`Pattern.compile`) is the parameter `compiles`, and what `replaceAll`
 * makes of an input is the parameter `sub`. Only the fixed separator
 * `,\s` of the split is modelled, as the scanner it amounts to.
 */
module Replacers {
  import opened Wrappers
  import opened Text

  /** One parsed token: a pattern and the replacement text for its matches. */
  datatype Rule = Rule(pattern: string, replacement: string)

  /** Why a token is rejected: the `IllegalArgumentException`s of :393-402 and the two library failures. */
  datatype RuleError =
    | /** The token does not start with `/` (:393). */
      MissingLeadingSlash(raw: string)
    | /** The token does not end with `/` (:396). */
      MissingTrailingSlash(raw: string)
    | /** The token is `/` alone: `substring(1, 0)` throws (:399). */
      LoneSlash(raw: string)
    | /** No `/` between the outer two (:401). */
      MissingInnerSlash(raw: string)
    | /** `Pattern.compile` rejects the pattern (:404). */
      InvalidPattern(pattern: string)

  // ----- one token -----

  /** The token that denotes `rule`. */
  function Render(rule: Rule): string
  {
    "/" + rule.pattern + "/" + rule.replacement + "/"
  }

  /** A rule some token can denote: its pattern holds no `/` and compiles. */
  predicate Denotable(rule: Rule, compiles: string -> bool)
  {
    '/' !in rule.pattern && compiles(rule.pattern)
  }

  /**
   * `Replacer.parse` (:392-405): check the outer slashes, strip them, and
   * cut at the first remaining `/`; the pattern is the part before it and
   * the replacement everything after it, slashes included.
   */
  function ParseRule(raw: string, compiles: string -> bool): (r: Result<Rule, RuleError>)
    ensures r == Failure(MissingLeadingSlash(raw)) <==> |raw| == 0 || raw[0] != '/'
    ensures r == Failure(MissingTrailingSlash(raw)) <==> |raw| > 0 && raw[0] == '/' && raw[|raw| - 1] != '/'
    ensures r == Failure(LoneSlash(raw)) <==> raw == "/"
    ensures r == Failure(MissingInnerSlash(raw)) <==>
      |raw| >= 2 && raw[0] == '/' && raw[|raw| - 1] == '/' && '/' !in raw[1..|raw| - 1]
    ensures r.Failure? && r.error.InvalidPattern? ==>
      var p := r.error.pattern;
      !compiles(p) && '/' !in p && |p| + 3 <= |raw| && raw[..|p| + 2] == "/" + p + "/"
    ensures r.Success? ==> Denotable(r.value, compiles) && Render(r.value) == raw
  {
    if |raw| == 0 || raw[0] != '/' then Failure(MissingLeadingSlash(raw))
    else if raw[|raw| - 1] != '/' then Failure(MissingTrailingSlash(raw))
    else if |raw| < 2 then Failure(LoneSlash(raw))
    else
      var trimmed := raw[1..|raw| - 1];
      SlashSearch(trimmed);
      match IndexOf(trimmed, "/")
      case None => Failure(MissingInnerSlash(raw))
      case Some(k) =>
        CutAtSlash(raw, k);
        var pattern := trimmed[..k];
        if compiles(pattern) then Success(Rule(pattern, trimmed[k + 1..]))
        else Failure(InvalidPattern(pattern))
  }

  /** `indexOf('/')` finds nothing exactly when there is no `/`, and otherwise the first one. */
  lemma SlashSearch(t: string)
    ensures IndexOf(t, "/").None? <==> '/' !in t
    ensures IndexOf(t, "/").Some? ==> t[IndexOf(t, "/").value] == '/' && '/' !in t[..IndexOf(t, "/").value]
  {
    CharOccurrences(t, '/');
    if IndexOf(t, "/").Some? {
      var k := IndexOf(t, "/").value;
      assert forall i :: 0 <= i < k ==> t[..k][i] == t[i];
    }
  }

  /** A token cut at the first `/` between its outer slashes. */
  lemma CutAtSlash(raw: string, k: nat)
    requires |raw| >= 2 && raw[0] == '/' && raw[|raw| - 1] == '/'
    requires IndexOf(raw[1..|raw| - 1], "/") == Some(k)
    ensures var t := raw[1..|raw| - 1];
      '/' !in t[..k] && raw == "/" + t[..k] + "/" + t[k + 1..] + "/"
  {
    var t := raw[1..|raw| - 1];
    SlashSearch(t);
    assert t == t[..k] + "/" + t[k + 1..];
    assert raw == "/" + t + "/";
    Assoc("/", t[..k] + "/", t[k + 1..]);
    Assoc("/", t[..k], "/");
  }

  /** Every rule whose pattern holds no `/` and compiles is parsed back from its token. */
  lemma ParseRender(rule: Rule, compiles: string -> bool)
    requires Denotable(rule, compiles)
    ensures ParseRule(Render(rule), compiles) == Success(rule)
  {
    var raw := Render(rule);
    var trimmed := raw[1..|raw| - 1];
    assert trimmed == rule.pattern + "/" + rule.replacement;
    CharOccurrences(trimmed, '/');
    assert trimmed[|rule.pattern|] == '/';
    assert forall i :: 0 <= i < |rule.pattern| ==> trimmed[i] == rule.pattern[i];
    assert IndexOf(trimmed, "/") == Some(|rule.pattern|);
    assert trimmed[..|rule.pattern|] == rule.pattern;
    assert trimmed[|rule.pattern| + 1..] == rule.replacement;
  }

  // ----- splitting on `,\s` -----

  /** The class `\s` of Java regular expressions: `[ \t\n\x0B\f\r]`. */
  predicate IsRegexSpace(c: char)
  {
    c == ' ' || c == '\t' || c == '\n' || c == '\U{B}' || c == '\U{C}' || c == '\r'
  }

  /** A match of `,\s` starts at `i`. */
  predicate SeparatorAt(s: string, i: nat)
  {
    i + 1 < |s| && s[i] == ',' && IsRegexSpace(s[i + 1])
  }

  /** No match of `,\s` anywhere in `s`. */
  predicate SeparatorFree(s: string)
  {
    forall i: nat :: i < |s| ==> !SeparatorAt(s, i)
  }

  /** The leftmost match of `,\s` at or after `from`. */
  function FirstSeparator(s: string, from: nat): (r: Option<nat>)
    ensures r.Some? ==> from <= r.value && SeparatorAt(s, r.value)
    ensures r.Some? ==> forall j: nat :: from <= j < r.value ==> !SeparatorAt(s, j)
    ensures r.None? ==> forall j: nat :: from <= j ==> !SeparatorAt(s, j)
    decreases |s| - from
  {
    if from + 1 >= |s| then None
    else if SeparatorAt(s, from) then Some(from)
    else FirstSeparator(s, from + 1)
  }

  /** The text between successive matches, searched left to right without overlap. */
  function Pieces(s: string): (ps: seq<string>)
    ensures |ps| >= 1
    decreases |s|
  {
    match FirstSeparator(s, 0)
    case None => [s]
    case Some(i) => [s[..i]] + Pieces(s[i + 2..])
  }

  /** The `\s` characters of the matches, in order. */
  function Spaces(s: string): (ws: seq<char>)
    decreases |s|
  {
    match FirstSeparator(s, 0)
    case None => []
    case Some(i) => [s[i + 1]] + Spaces(s[i + 2..])
  }

  /** The pieces joined back with `,` and the given `\s` characters. */
  function Join(ps: seq<string>, ws: seq<char>): string
    requires |ps| == |ws| + 1
    decreases |ws|
  {
    if |ws| == 0 then ps[0] else ps[0] + [',', ws[0]] + Join(ps[1..], ws[1..])
  }

  /** `ps` with its empty tail removed. */
  function DropTrailingEmpty(ps: seq<string>): (r: seq<string>)
    ensures r <= ps
    ensures |r| > 0 ==> r[|r| - 1] != ""
    ensures forall i :: |r| <= i < |ps| ==> ps[i] == ""
  {
    if |ps| == 0 || ps[|ps| - 1] != "" then ps else DropTrailingEmpty(ps[..|ps| - 1])
  }

  /**
   * `s.split(",\\s")` (GenerateTestModulesMojo.java:371): without a match
   * the whole string, even when empty; otherwise the pieces with trailing
   * empty ones removed.
   */
  function Split(s: string): (ps: seq<string>)
    ensures forall k :: 0 <= k < |ps| ==> SeparatorFree(ps[k])
    ensures FirstSeparator(s, 0).None? ==> ps == [s]
    ensures FirstSeparator(s, 0).Some? && |ps| > 0 ==> ps[|ps| - 1] != ""
  {
    PiecesJoin(s);
    if FirstSeparator(s, 0).None? then [s] else DropTrailingEmpty(Pieces(s))
  }

  lemma {:induction false} PiecesJoin(s: string)
    ensures |Pieces(s)| == |Spaces(s)| + 1
    ensures Join(Pieces(s), Spaces(s)) == s
    ensures forall k :: 0 <= k < |Pieces(s)| ==> SeparatorFree(Pieces(s)[k])
    ensures forall k :: 0 <= k < |Spaces(s)| ==> IsRegexSpace(Spaces(s)[k])
    decreases |s|
  {
    match FirstSeparator(s, 0)
    case None =>
    case Some(i) =>
      var rest := s[i + 2..];
      PiecesJoin(rest);
      var ps, ws := Pieces(s), Spaces(s);
      assert ps == [s[..i]] + Pieces(rest) && ws == [s[i + 1]] + Spaces(rest);
      assert ps[1..] == Pieces(rest) && ws[1..] == Spaces(rest);
      assert Join(ps, ws) == s[..i] + [',', s[i + 1]] + Join(Pieces(rest), Spaces(rest));
      assert s == s[..i] + [',', s[i + 1]] + rest;
      forall j: nat | j < i
        ensures !SeparatorAt(s[..i], j)
      {
        assert !SeparatorAt(s, j);
        if j + 1 < i {
          assert s[..i][j] == s[j] && s[..i][j + 1] == s[j + 1];
        }
      }
      assert SeparatorFree(ps[0]);
  }

  /** The first match in a join is the separator after the first piece. */
  lemma FirstSeparatorOfJoin(ps: seq<string>, ws: seq<char>)
    requires |ps| == |ws| + 1 && |ws| > 0
    requires SeparatorFree(ps[0]) && IsRegexSpace(ws[0])
    ensures FirstSeparator(Join(ps, ws), 0) == Some(|ps[0]|)
  {
    var s := Join(ps, ws);
    var p := ps[0];
    assert s == p + [',', ws[0]] + Join(ps[1..], ws[1..]);
    assert SeparatorAt(s, |p|);
    forall j: nat | j < |p|
      ensures !SeparatorAt(s, j)
    {
      if j + 1 < |p| {
        assert !SeparatorAt(p, j);
      }
    }
  }

  /**
   * Splitting a join of separator-free pieces with `\s` characters gives
   * back the pieces and the characters.
   */
  lemma {:induction false} JoinPieces(ps: seq<string>, ws: seq<char>)
    requires |ps| == |ws| + 1
    requires forall k :: 0 <= k < |ps| ==> SeparatorFree(ps[k])
    requires forall k :: 0 <= k < |ws| ==> IsRegexSpace(ws[k])
    ensures Pieces(Join(ps, ws)) == ps && Spaces(Join(ps, ws)) == ws
    decreases |ws|
  {
    var s := Join(ps, ws);
    if |ws| == 0 {
      assert !SeparatorAt(ps[0], 0);
      assert FirstSeparator(s, 0).None?;
    } else {
      var p := ps[0];
      FirstSeparatorOfJoin(ps, ws);
      assert s == p + [',', ws[0]] + Join(ps[1..], ws[1..]);
      assert s[..|p|] == p;
      assert s[|p| + 2..] == Join(ps[1..], ws[1..]);
      JoinPieces(ps[1..], ws[1..]);
    }
  }

  /**
   * Splitting a join of separator-free pieces: a single piece comes back as
   * it is, even when empty; pieces joined by at least one separator come
   * back with their empty tail dropped.
   */
  lemma SplitJoin(ps: seq<string>, ws: seq<char>)
    requires |ps| == |ws| + 1
    requires forall k :: 0 <= k < |ps| ==> SeparatorFree(ps[k])
    requires forall k :: 0 <= k < |ws| ==> IsRegexSpace(ws[k])
    ensures |ws| == 0 ==> Split(Join(ps, ws)) == ps
    ensures |ws| > 0 ==> Split(Join(ps, ws)) == DropTrailingEmpty(ps)
  {
    JoinPieces(ps, ws);
    if |ws| > 0 {
      FirstSeparatorOfJoin(ps, ws);
    } else {
      assert !SeparatorAt(ps[0], 0);
      assert FirstSeparator(Join(ps, ws), 0).None?;
    }
  }

  // ----- the chain -----

  /** `map(Replacer::parse)` in stream order: the first token that fails decides the error. */
  function ParseRules(tokens: seq<string>, compiles: string -> bool): (r: Result<seq<Rule>, RuleError>)
    ensures r.Success? <==> forall i :: 0 <= i < |tokens| ==> ParseRule(tokens[i], compiles).Success?
    ensures r.Success? ==> |r.value| == |tokens|
    ensures r.Success? ==> forall i :: 0 <= i < |tokens| ==> r.value[i] == ParseRule(tokens[i], compiles).value
    decreases |tokens|
  {
    if |tokens| == 0 then Success([])
    else
      var rule :- ParseRule(tokens[0], compiles);
      var rest :- ParseRules(tokens[1..], compiles);
      Success([rule] + rest)
  }

  /** The error of a failed parse is that of the first token that fails. */
  lemma {:induction false} ParseRulesFirstError(tokens: seq<string>, compiles: string -> bool, k: nat)
    requires k < |tokens| && ParseRule(tokens[k], compiles).Failure?
    requires forall i :: 0 <= i < k ==> ParseRule(tokens[i], compiles).Success?
    ensures ParseRules(tokens, compiles) == Failure(ParseRule(tokens[k], compiles).error)
    decreases k
  {
    if k > 0 {
      assert ParseRule(tokens[1..][k - 1], compiles) == ParseRule(tokens[k], compiles);
      ParseRulesFirstError(tokens[1..], compiles, k - 1);
    }
  }

  /**
   * `Replacers.parse` (:367-375): no configuration gives the empty chain;
   * otherwise the tokens of the split, each parsed.
   */
  function ParseChain(replacers: Option<string>, compiles: string -> bool): (r: Result<seq<Rule>, RuleError>)
    ensures replacers.None? ==> r == Success([])
    ensures replacers.Some? ==>
      var tokens := Split(replacers.value);
      && (r.Success? <==> forall i :: 0 <= i < |tokens| ==> ParseRule(tokens[i], compiles).Success?)
      && (r.Success? ==> |r.value| == |tokens|)
      && (r.Success? ==> forall i :: 0 <= i < |tokens| ==> r.value[i] == ParseRule(tokens[i], compiles).value)
  {
    match replacers
    case None => Success([])
    case Some(s) => ParseRules(Split(s), compiles)
  }

  /** `Replacer.apply` (:415-417): `replaceAll` of the rule's pattern by its replacement. */
  function ApplyRule(rule: Rule, sub: (string, string, string) -> string, input: string): string
  {
    sub(rule.pattern, rule.replacement, input)
  }

  /** `Replacers.apply` (:382-387): each rule's output feeds the next. */
  function ApplyChain(rules: seq<Rule>, sub: (string, string, string) -> string, input: string): string
    decreases |rules|
  {
    if |rules| == 0 then input else ApplyChain(rules[1..], sub, ApplyRule(rules[0], sub, input))
  }

  /** Applying a chain in two parts is applying the second part to the output of the first. */
  lemma {:induction false} ApplyChainAppend(a: seq<Rule>, b: seq<Rule>, sub: (string, string, string) -> string, input: string)
    ensures ApplyChain(a + b, sub, input) == ApplyChain(b, sub, ApplyChain(a, sub, input))
    decreases |a|
  {
    if |a| == 0 {
      assert a + b == b;
    } else {
      assert (a + b)[1..] == a[1..] + b;
      ApplyChainAppend(a[1..], b, sub, ApplyRule(a[0], sub, input));
    }
  }

  /** The loop of :383-386 as written: feed the input through the rules in order. */
  method Apply(rules: seq<Rule>, sub: (string, string, string) -> string, input: string) returns (output: string)
    ensures output == ApplyChain(rules, sub, input)
  {
    output := input;
    var i := 0;
    while i < |rules|
      invariant i <= |rules|
      invariant output == ApplyChain(rules[..i], sub, input)
    {
      ApplyChainAppend(rules[..i], [rules[i]], sub, input);
      assert rules[..i + 1] == rules[..i] + [rules[i]];
      output := ApplyRule(rules[i], sub, output);
      i := i + 1;
    }
    assert rules[..|rules|] == rules;
  }

  // ----- round trip of a whole chain -----

  /** The tokens of `rules` joined with `, `, the separator the split expects. */
  function RenderChain(rules: seq<Rule>): string
    requires |rules| >= 1
  {
    Join(seq(|rules|, i requires 0 <= i < |rules| => Render(rules[i])), seq(|rules| - 1, _ => ' '))
  }

  /** Splitting the joined tokens gives the tokens back: none is empty, so none is dropped. */
  lemma SplitRenderChain(rules: seq<Rule>)
    requires |rules| >= 1
    requires forall i :: 0 <= i < |rules| ==> SeparatorFree(Render(rules[i]))
    ensures Split(RenderChain(rules)) == seq(|rules|, i requires 0 <= i < |rules| => Render(rules[i]))
  {
    var tokens := seq(|rules|, i requires 0 <= i < |rules| => Render(rules[i]));
    var ws: seq<char> := seq(|rules| - 1, _ => ' ');
    JoinPieces(tokens, ws);
    if |rules| == 1 {
      assert Join(tokens, ws) == tokens[0];
      assert FirstSeparator(tokens[0], 0).None? by {
        var r := FirstSeparator(tokens[0], 0);
        if r.Some? {
          assert !SeparatorAt(tokens[0], r.value);
        }
      }
    } else {
      assert FirstSeparator(Join(tokens, ws), 0).Some? by {
        FirstSeparatorOfJoin(tokens, ws);
      }
      assert tokens[|tokens| - 1] != "" by {
        assert |Render(rules[|rules| - 1])| >= 3;
      }
    }
  }

  /**
   * A chain of rules whose tokens hold no `,\s` is parsed back from its
   * rendering: parsing is a left inverse of rendering on whole chains.
   */
  lemma ParseRenderChain(rules: seq<Rule>, compiles: string -> bool)
    requires |rules| >= 1
    requires forall i :: 0 <= i < |rules| ==> Denotable(rules[i], compiles) && SeparatorFree(Render(rules[i]))
    ensures ParseChain(Some(RenderChain(rules)), compiles) == Success(rules)
  {
    var tokens := seq(|rules|, i requires 0 <= i < |rules| => Render(rules[i]));
    SplitRenderChain(rules);
    forall i | 0 <= i < |rules|
      ensures ParseRule(tokens[i], compiles) == Success(rules[i])
    {
      ParseRender(rules[i], compiles);
    }
    var r := ParseRules(tokens, compiles);
    assert r.value == rules;
  }

  // ----- what the split does to sample configurations -----

  /** A comma without whitespace does not separate: one token, whose replacement runs to the last slash. */
  lemma CommaWithoutSpaceIsOneToken(compiles: string -> bool)
    requires compiles("a")
    ensures ParseChain(Some("/a/b/,/b/c/"), compiles) == Success([Rule("a", "b/,/b/c")])
  {
    var s := "/a/b/,/b/c/";
    SampleHasNoSeparator();
    SampleTokenParse(compiles);
    assert [s][1..] == [];
    assert ParseRules([s][1..], compiles) == Success([]);
    assert [Rule("a", "b/,/b/c")] + [] == [Rule("a", "b/,/b/c")];
  }

  lemma SampleHasNoSeparator()
    ensures Split("/a/b/,/b/c/") == ["/a/b/,/b/c/"]
  {
    var s := "/a/b/,/b/c/";
    forall j: nat
      ensures !SeparatorAt(s, j)
    {
      if j + 1 < |s| && s[j] == ',' {
        assert j == 5 && s[j + 1] == '/';
      }
    }
    assert FirstSeparator(s, 0).None?;
  }

  lemma SampleTokenParse(compiles: string -> bool)
    requires compiles("a")
    ensures ParseRule("/a/b/,/b/c/", compiles) == Success(Rule("a", "b/,/b/c"))
  {
    var s := "/a/b/,/b/c/";
    var t := s[1..|s| - 1];
    assert t == "a/b/,/b/c";
    assert IndexOf(t, "/") == Some(1) by {
      CharOccurrences(t, '/');
      assert t[1] == '/' && t[0] != '/';
    }
    assert t[..1] == "a" && t[2..] == "b/,/b/c";
  }

  /** An empty configuration is the token `""`, which fails the leading-slash check; `null` alone is the empty chain. */
  lemma EmptyConfigurationFails(compiles: string -> bool)
    ensures ParseChain(Some(""), compiles) == Failure(MissingLeadingSlash(""))
    ensures ParseChain(None, compiles) == Success([])
  {
    assert Split("") == [""];
  }

  /** A lone separator splits into two empty pieces, both dropped: the empty chain. */
  lemma LoneSeparatorIsEmptyChain(compiles: string -> bool)
    ensures ParseChain(Some(", "), compiles) == Success([])
  {
    var s := ", ";
    assert SeparatorAt(s, 0);
    assert FirstSeparator(s, 0) == Some(0);
    assert s[2..] == "";
    assert Pieces(s) == ["", ""];
  }
}
