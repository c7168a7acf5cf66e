/**
 * The managed-block synchronizer of `GenerateTestModulesMojo.addModules`:
 * given the text of the parent `pom.xml` and the ordered list of generated
 * module directories, make the region between the START and END markers
 * list exactly those modules, creating the markers (and, if need be, the
 * `<modules>` element) when the document has none.
 * Bare line numbers below are lines of `GenerateTestModulesMojo.java`.
 */
module ManagedBlock {
  import opened Wrappers
  import opened Text
  import opened IndentPattern

  const GeneratedBy := ": modules generated by "
  const PluginName := "rpkgtests-maven-plugin"

  /** `<!-- START: modules generated by rpkgtests-maven-plugin -->` */
  const StartMarker := "<!--" + " START" + GeneratedBy + PluginName + " -->"

  /** `<!-- END: modules generated by rpkgtests-maven-plugin -->` */
  const EndMarker := "<!--" + " END" + GeneratedBy + PluginName + " -->"

  const ModulesOpen := "<modules>"
  const ModulesClose := "</modules>"
  const ProjectClose := "</project>"

  /**
   * The strings the synchronizer searches for and writes: the two comment
   * lines that delimit the managed region, the tags of the `<modules>`
   * element, and the closing tag of the project.
   */
  datatype Tags = Tags(start: string, end: string, modulesOpen: string, modulesClose: string, projectClose: string)

  /** The markers of the plugin (:65-66) and the POM tags `addModules` searches for. */
  const PluginTags := Tags(StartMarker, EndMarker, ModulesOpen, ModulesClose, ProjectClose)

  /** The exceptions `addModules` can end in. */
  datatype SyncError =
    | /** No START marker, no `<modules>` and no `</project>`: `IllegalStateException` naming the file. */
      ProjectCloseNotFound(path: string)
    | /** END marker missing or found before the end of START: `StringBuilder.replace` rejects the range. */
      RegionBoundsInvalid

  /** What the detection can yield: a line ending of CR/LF characters and an indentation of blanks. */
  predicate Style(eol: string, indent: string)
  {
    && (eol == "\r\n" || eol == "\n")
    && forall i :: 0 <= i < |indent| ==> IsBlank(indent[i])
  }

  /** A character of the classes `[\r\n]` or `[ \t]`. */
  predicate IsSpace(c: char)
  {
    IsEol(c) || IsBlank(c)
  }

  /** `s` runs through line breaks and blanks up to a `<` at `b0`. */
  predicate LeadsToTag(s: string, b0: nat)
  {
    b0 < |s| && s[b0] == '<' && forall i :: 0 <= i < b0 ==> IsSpace(s[i])
  }

  /** Text appended behind does not change what leads up to the `<`. */
  lemma LeadsToTagExtends(s: string, u: string, b0: nat)
    requires LeadsToTag(s, b0)
    ensures LeadsToTag(s + u, b0)
  {
    forall i | 0 <= i <= b0 ensures (s + u)[i] == s[i] {
    }
  }

  /** `pat` opens with `<`, holds no other `<` and closes with `>`, like both markers. */
  predicate TagShaped(pat: string)
  {
    && |pat| >= 6 && pat[0] == '<' && pat[1] == '!'
    && (forall i :: 0 < i < |pat| ==> pat[i] != '<')
    && pat[|pat| - 1] == '>'
  }

  /** No `<` and no carriage return: true of every piece of the markers after the opening `<`. */
  predicate Plain(s: string)
  {
    forall i :: 0 <= i < |s| ==> s[i] != '<' && s[i] != '\r'
  }

  lemma PlainPieces()
    ensures Plain("!--") && Plain(" START") && Plain(" END") && Plain(" -->")
    ensures Plain(GeneratedBy) && Plain(PluginName)
  {
  }

  /** A marker built as `<!--`, a word, the shared text and ` -->`. */
  lemma MarkerShape(word: string)
    requires Plain(word) && |word| >= 2 && word[0] == ' '
    ensures var m := "<!--" + word + GeneratedBy + PluginName + " -->";
      TagShaped(m) && m[5] == word[1] && '\r' !in m
  {
    PlainPieces();
    var rest := "!--" + word + GeneratedBy + PluginName + " -->";
    PlainJoin("!--", word);
    PlainJoin("!--" + word, GeneratedBy);
    PlainJoin("!--" + word + GeneratedBy, PluginName);
    PlainJoin("!--" + word + GeneratedBy + PluginName, " -->");
    assert "<!--" + word + GeneratedBy + PluginName + " -->" == "<" + rest;
    TagAfterLt(rest);
  }

  lemma PlainJoin(a: string, b: string)
    requires Plain(a) && Plain(b)
    ensures Plain(a + b)
  {
    assert forall i :: |a| <= i < |a + b| ==> (a + b)[i] == b[i - |a|];
  }

  /** `<` followed by plain text that opens with `!` and closes with `>` is tag-shaped. */
  lemma TagAfterLt(rest: string)
    requires Plain(rest) && |rest| >= 5 && rest[0] == '!' && rest[|rest| - 1] == '>'
    ensures TagShaped("<" + rest) && '\r' !in "<" + rest
  {
    var m := "<" + rest;
    assert forall i :: 0 < i < |m| ==> m[i] == rest[i - 1];
  }

  /** An opening element tag: a `<`, then no `!`, and no other `<` and no carriage return. */
  predicate OpensElement(s: string)
  {
    && |s| >= 2 && s[0] == '<' && s[1] != '!'
    && (forall i :: 0 < i < |s| ==> s[i] != '<')
    && '\r' !in s
  }

  /**
   * What the synchronizer relies on in its tags: both markers are
   * tag-shaped, they differ at index 5, neither holds a carriage return,
   * and the `<modules>` tags are element tags without carriage returns.
   */
  predicate ValidTags(tg: Tags)
  {
    && TagShaped(tg.start) && TagShaped(tg.end) && tg.start[5] != tg.end[5]
    && '\r' !in tg.start && '\r' !in tg.end
    && OpensElement(tg.modulesOpen) && '\r' !in tg.modulesClose
  }

  lemma PluginTagsValid()
    ensures ValidTags(PluginTags)
  {
    PlainPieces();
    MarkerShape(" START");
    MarkerShape(" END");
    assert OpensElement(ModulesOpen);
  }

  /** One generated entry, as the loop at :249 inserts it. */
  function ModuleLine(m: string, eol: string, indent: string): string
  {
    eol + indent + indent + "<module>" + m + "</module>"
  }

  /** The entries for `ms` in list order, each on its own line. */
  function ModuleLines(ms: seq<string>, eol: string, indent: string): string
  {
    if |ms| == 0 then "" else ModuleLine(ms[0], eol, indent) + ModuleLines(ms[1..], eol, indent)
  }

  /** What the managed region holds after an update: the entries, then a line break and two indents before END. */
  function RegionBody(ms: seq<string>, eol: string, indent: string): string
  {
    ModuleLines(ms, eol, indent) + eol + indent + indent
  }

  /** The lines `ls`, each one followed by the line ending. */
  function Lines(ls: seq<string>, eol: string): string
  {
    if |ls| == 0 then "" else ls[0] + eol + Lines(ls[1..], eol)
  }

  /** The START and END lines inserted after an existing `<modules>` (:239). */
  function MarkerLines(tg: Tags, eol: string, indent: string): string
  {
    Lines([indent + indent + tg.start, indent + indent + tg.end], eol)
  }

  /** The `<modules>` element synthesized before `</project>` (:230-231). */
  function Container(tg: Tags, eol: string, indent: string): string
  {
    Lines([indent + tg.modulesOpen, indent + indent + tg.start, indent + indent + tg.end, indent + tg.modulesClose], eol)
  }

  /** The marker lines written out. */
  lemma MarkerLinesShape(tg: Tags, eol: string, indent: string)
    ensures MarkerLines(tg, eol, indent) == indent + indent + tg.start + eol + indent + indent + tg.end + eol
  {
    var s := indent + indent + tg.start;
    var e := indent + indent + tg.end;
    assert [s, e][1..] == [e];
    assert [e][1..] == [];
    assert Lines([e], eol) == e + eol + "";
  }

  /** The container written out: its opening line, the marker lines and its closing line. */
  lemma ContainerShape(tg: Tags, eol: string, indent: string)
    ensures Container(tg, eol, indent)
      == indent + tg.modulesOpen + eol + MarkerLines(tg, eol, indent) + indent + tg.modulesClose + eol
  {
    var o := indent + tg.modulesOpen;
    var s := indent + indent + tg.start;
    var e := indent + indent + tg.end;
    var c := indent + tg.modulesClose;
    assert [o, s, e, c][1..] == [s, e, c];
    assert [s, e, c][1..] == [e, c];
    assert [e, c][1..] == [c];
    assert [c][1..] == [];
    assert Lines([c], eol) == c + eol + "";
    MarkerLinesShape(tg, eol, indent);
    assert Lines([e, c], eol) == e + eol + (c + eol);
    assert Lines([s, e, c], eol) == MarkerLines(tg, eol, indent) + (c + eol);
  }

  /** Where START begins inside `MarkerLines`: behind two indents. */
  function StartOffset(indent: string): nat
  {
    2 * |indent|
  }

  /** Where END begins inside `MarkerLines`: behind the START line, a line break and two indents. */
  function EndOffset(tg: Tags, eol: string, indent: string): nat
  {
    StartOffset(indent) + |tg.start| + |eol| + 2 * |indent|
  }

  /** The length of the `<modules>` line that opens a synthesized container. */
  function OpenLineLength(tg: Tags, eol: string, indent: string): nat
  {
    |indent| + |tg.modulesOpen| + |eol|
  }

  /** Where START begins inside `Container`: behind its opening line, as in `MarkerLines`. */
  function ContainerStart(tg: Tags, eol: string, indent: string): nat
  {
    OpenLineLength(tg, eol, indent) + StartOffset(indent)
  }

  /** Where END begins inside `Container`. */
  function ContainerEnd(tg: Tags, eol: string, indent: string): nat
  {
    OpenLineLength(tg, eol, indent) + EndOffset(tg, eol, indent)
  }

  lemma {:induction false} ModuleLinesAppend(a: seq<string>, b: seq<string>, eol: string, indent: string)
    ensures ModuleLines(a + b, eol, indent) == ModuleLines(a, eol, indent) + ModuleLines(b, eol, indent)
    decreases |a|
  {
    if |a| == 0 {
      assert a + b == b;
    } else {
      assert (a + b)[1..] == a[1..] + b;
      ModuleLinesAppend(a[1..], b, eol, indent);
    }
  }

  /**
   * The loop at :247-250: insert the line of `ms[n-1]`, then of `ms[n-2]`,
   * ..., then of `ms[0]`, every time at the same offset `pos`.
   */
  function InsertBackwards(t: string, pos: nat, ms: seq<string>, eol: string, indent: string, n: nat): string
    requires pos <= |t| && n <= |ms|
    decreases n
  {
    if n == 0 then t
    else InsertBackwards(t[..pos] + ModuleLine(ms[n - 1], eol, indent) + t[pos..], pos, ms, eol, indent, n - 1)
  }

  /** Inserting back to front at one fixed offset lays the lines out front to back. */
  lemma {:induction false} InsertBackwardsIsForwardJoin(t: string, pos: nat, ms: seq<string>, eol: string, indent: string, n: nat)
    requires pos <= |t| && n <= |ms|
    ensures InsertBackwards(t, pos, ms, eol, indent, n) == t[..pos] + ModuleLines(ms[..n], eol, indent) + t[pos..]
    decreases n
  {
    if n == 0 {
      assert ms[..0] == [];
    } else {
      var line := ModuleLine(ms[n - 1], eol, indent);
      var t' := t[..pos] + line + t[pos..];
      assert t'[..pos] == t[..pos];
      assert t'[pos..] == line + t[pos..];
      InsertBackwardsIsForwardJoin(t', pos, ms, eol, indent, n - 1);
      assert ms[..n] == ms[..n - 1] + [ms[n - 1]];
      ModuleLinesAppend(ms[..n - 1], [ms[n - 1]], eol, indent);
      assert ModuleLines([ms[n - 1]], eol, indent) == line;
    }
  }

  /**
   * Emptying `[pos, d)` down to a line break and two indents and then
   * running the loop at `pos` leaves the region body between the two parts.
   */
  lemma ClearThenInsert(t: string, pos: nat, d: nat, eol: string, indent: string, ms: seq<string>)
    requires pos <= d <= |t|
    ensures InsertBackwards(t[..pos] + eol + indent + indent + t[d..], pos, ms, eol, indent, |ms|)
      == t[..pos] + RegionBody(ms, eol, indent) + t[d..]
  {
    var x := t[..pos];
    var y := t[d..];
    var w := eol + indent + indent;
    var lines := ModuleLines(ms, eol, indent);
    var cleared := x + eol + indent + indent + y;
    Assoc(x, eol + indent, indent);
    Assoc(x, eol, indent);
    Assoc(x, w, y);
    TwoPieces(x, w + y);
    InsertBackwardsIsForwardJoin(cleared, pos, ms, eol, indent, |ms|);
    assert ms[..|ms|] == ms;
    Assoc(x + lines, w, y);
    Assoc(x, lines, w);
    Assoc(lines, eol + indent, indent);
    Assoc(lines, eol, indent);
  }

  /** The same loop, written imperatively over a decreasing index. */
  method InsertModuleLines(t: string, pos: nat, ms: seq<string>, eol: string, indent: string) returns (r: string)
    requires pos <= |t|
    ensures r == t[..pos] + ModuleLines(ms, eol, indent) + t[pos..]
  {
    r := t;
    var i := |ms|;
    assert ms[|ms|..] == [];
    while i > 0
      invariant 0 <= i <= |ms|
      invariant r == t[..pos] + ModuleLines(ms[i..], eol, indent) + t[pos..]
      decreases i
    {
      var line := ModuleLine(ms[i - 1], eol, indent);
      assert ms[i - 1..][1..] == ms[i..];
      r := r[..pos] + line + r[pos..];
      i := i - 1;
    }
    assert ms[0..] == ms;
  }

  /** An occurrence of a tag-shaped pattern starts at a `<`, holds no other `<` and ends at a `>`. */
  lemma TagOccurrence(s: string, pat: string, j: nat)
    requires TagShaped(pat) && OccursAt(s, pat, j)
    ensures s[j] == '<' && s[j + 1] == '!'
    ensures forall i :: j < i < j + |pat| ==> s[i] != '<'
    ensures s[j + |pat| - 1] == '>'
  {
    forall i | j <= i < j + |pat|
      ensures s[i] == pat[i - j]
    {
      assert s[i] == s[j..j + |pat|][i - j];
    }
  }

  /** A pattern does not occur where one of its characters is missing. */
  lemma Mismatch(s: string, pat: string, j: nat, k: nat)
    requires k < |pat| && j + k < |s| && s[j + k] != pat[k]
    ensures !OccursAt(s, pat, j)
  {
  }

  /**
   * No occurrence of a tag-shaped pattern straddles position `x` when the
   * text from `x` on is a run of line breaks and blanks followed by `<`.
   */
  lemma NoStraddle(s: string, pat: string, x: nat, b0: nat, j: nat)
    requires TagShaped(pat)
    requires x <= b0 < |s| && s[b0] == '<'
    requires forall i :: x <= i < b0 ==> IsSpace(s[i])
    requires j < x < j + |pat|
    ensures !OccursAt(s, pat, j)
  {
    if OccursAt(s, pat, j) {
      TagOccurrence(s, pat, j);
    }
  }

  /** A pattern missing from a string is missing from each of its prefixes. */
  lemma AbsentFromPrefix(s: string, pat: string, n: nat)
    requires n <= |s| && Absent(s, pat)
    ensures Absent(s[..n], pat)
  {
    forall j: nat | j <= n
      ensures !OccursAt(s[..n], pat, j)
    {
      if j + |pat| <= n {
        OccursInSharedPrefix(s, s[..n], pat, n, j);
      }
    }
  }

  /** When the leftmost occurrence in `s` does not end inside `s[..n]`, that prefix holds none. */
  lemma AbsentBeforeFirst(s: string, pat: string, n: nat)
    requires n <= |s|
    requires IndexOf(s, pat).None? || IndexOf(s, pat).value + |pat| > n
    ensures Absent(s[..n], pat)
  {
    forall j: nat | j <= n
      ensures !OccursAt(s[..n], pat, j)
    {
      if j + |pat| <= n {
        OccursInSharedPrefix(s, s[..n], pat, n, j);
      }
    }
  }

  /**
   * Inserting `block` between `x` and `y`, where `x` has no occurrence,
   * `block` opens with blanks or line breaks and a `<`, and the first
   * occurrence inside `block` is at `off`: the first occurrence in the
   * result is that one.
   */
  lemma InsertedTagIsFirst(x: string, block: string, y: string, pat: string, b0: nat, off: nat)
    requires TagShaped(pat) && Absent(x, pat)
    requires LeadsToTag(block, b0)
    requires FirstAt(block, pat, off)
    ensures IndexOf(x + block + y, pat) == Some(|x| + off)
  {
    var s := x + block + y;
    Assoc(x, block, y);
    FirstInPrefix(block, y, pat, off);
    LeadsToTagExtends(block, y, b0);
    FirstAfterPrefix(x, block + y, pat, off) by {
      forall j: nat | j < |x|
        ensures !OccursAt(x + (block + y), pat, j)
      {
        NotInsideLeft(x, block + y, pat, b0, j);
      }
    }
    IndexOfIsLeast(s, pat, |x| + off);
  }

  /** `InsertedTagIsFirst` for a block inserted at position `at` of `doc`. */
  lemma TagAfterInsertion(doc: string, at: nat, block: string, pat: string, b0: nat, off: nat)
    requires TagShaped(pat) && at <= |doc| && Absent(doc[..at], pat)
    requires LeadsToTag(block, b0) && FirstAt(block, pat, off)
    ensures IndexOf(doc[..at] + block + doc[at..], pat) == Some(at + off)
  {
    InsertedTagIsFirst(doc[..at], block, doc[at..], pat, b0, off);
  }

  /**
   * No occurrence of a tag-shaped pattern starts inside `x` when `x` holds
   * none and the text behind it runs through blanks and line breaks to a `<`.
   */
  lemma NotInsideLeft(x: string, t: string, pat: string, b0: nat, j: nat)
    requires TagShaped(pat) && Absent(x, pat)
    requires LeadsToTag(t, b0)
    requires j < |x|
    ensures !OccursAt(x + t, pat, j)
  {
    var s := x + t;
    if j + |pat| <= |x| {
      assert s[..|x|] == x;
      OccursInSharedPrefix(x, s, pat, |x|, j);
    } else {
      forall i | |x| <= i < |x| + b0 ensures IsSpace(s[i]) {
        assert s[i] == t[i - |x|];
      }
      assert s[|x| + b0] == t[b0];
      NoStraddle(s, pat, |x|, |x| + b0, j);
    }
  }

  /** An occurrence wholly inside the kept prefix stays the first one after an insertion behind it. */
  lemma EarlierTagKept(doc: string, at: nat, block: string, pat: string)
    requires at <= |doc|
    requires IndexOf(doc, pat).Some? && IndexOf(doc, pat).value + |pat| <= at
    ensures IndexOf(doc[..at] + block + doc[at..], pat) == IndexOf(doc, pat)
  {
    var s := doc[..at] + block + doc[at..];
    var d := IndexOf(doc, pat).value;
    assert s[..at] == doc[..at];
    OccursInSharedPrefix(doc, s, pat, at, d);
    forall j: nat | j < d
      ensures !OccursAt(s, pat, j)
    {
      OccursInSharedPrefix(doc, s, pat, at, j);
    }
    IndexOfIsLeast(s, pat, d);
  }

  /** All characters of `s` are line breaks or blanks. */
  predicate AllSpace(s: string)
  {
    forall i :: 0 <= i < |s| ==> IsSpace(s[i])
  }

  lemma AllSpaceConcat(x: string, y: string)
    requires AllSpace(x) && AllSpace(y)
    ensures AllSpace(x + y)
  {
    forall i | 0 <= i < |x + y| ensures IsSpace((x + y)[i]) {
      if i >= |x| {
        assert (x + y)[i] == y[i - |x|];
      }
    }
  }

  lemma StyleIsSpace(eol: string, indent: string)
    requires Style(eol, indent)
    ensures AllSpace(eol) && AllSpace(indent)
  {
  }

  /** No occurrence of a tag-shaped pattern starts inside a run of blanks and line breaks. */
  lemma NoTagInSpaces(s: string, pat: string, lo: nat, hi: nat)
    requires TagShaped(pat) && hi <= |s|
    requires forall i :: lo <= i < hi ==> IsSpace(s[i])
    ensures forall j: nat :: lo <= j < hi ==> !OccursAt(s, pat, j)
  {
    forall j: nat | lo <= j < hi && OccursAt(s, pat, j)
      ensures false
    {
      TagOccurrence(s, pat, j);
    }
  }

  /**
   * In `w + a + v + b + rest` with `w`, `v` blank and `a`, `b` tag-shaped
   * patterns that differ at index 5: `a` first occurs right after `w`, and
   * `b` first occurs right after `v`.
   */
  lemma TwoTagsLayout(w: string, a: string, v: string, b: string, rest: string)
    requires TagShaped(a) && TagShaped(b) && a[5] != b[5]
    requires AllSpace(w) && AllSpace(v)
    ensures var s := w + a + v + b + rest;
      var e := |w| + |a| + |v|;
      && LeadsToTag(s, |w|)
      && FirstAt(s, a, |w|)
      && FirstAt(s, b, e)
  {
    var s := w + a + v + b + rest;
    var e := |w| + |a| + |v|;
    assert s[|w|..|w| + |a|] == a;
    assert s[e..e + |b|] == b;
    forall i | 0 <= i < |w| ensures IsSpace(s[i]) {
      assert s[i] == w[i];
    }
    forall i | |w| + |a| <= i < e ensures IsSpace(s[i]) {
      assert s[i] == v[i - |w| - |a|];
    }
    NoTagInSpaces(s, a, 0, |w|);
    NoTagInSpaces(s, b, 0, |w|);
    NoTagInSpaces(s, b, |w| + |a|, e);
    assert s[|w| + 5] == a[5];
    Mismatch(s, b, |w|, 5);
    forall j: nat | |w| < j < |w| + |a|
      ensures !OccursAt(s, b, j)
    {
      assert s[j] == a[j - |w|];
      Mismatch(s, b, j, 0);
    }
  }

  /** Where the markers sit inside `MarkerLines`. */
  lemma MarkerLinesLayout(tg: Tags, eol: string, indent: string)
    requires Style(eol, indent) && ValidTags(tg)
    ensures var b := MarkerLines(tg, eol, indent);
      var s := StartOffset(indent);
      && LeadsToTag(b, s)
      && FirstAt(b, tg.start, s)
      && FirstAt(b, tg.end, EndOffset(tg, eol, indent))
  {
    var w := indent + indent;
    var v := eol + indent + indent;
    MarkerLinesShape(tg, eol, indent);
    StyleIsSpace(eol, indent);
    AllSpaceConcat(indent, indent);
    AllSpaceConcat(eol, w);
    Assoc(eol, indent, indent);
    Assoc(w + tg.start, eol + indent, indent);
    Assoc(w + tg.start, eol, indent);
    TwoTagsLayout(w, tg.start, v, tg.end, eol);
  }

  /** Occurrences in `p + t` that start inside `p` being excluded, the first one is the first one of `t`, shifted. */
  lemma FirstAfterPrefix(p: string, t: string, pat: string, off: nat)
    requires forall j: nat :: j < |p| ==> !OccursAt(p + t, pat, j)
    requires FirstAt(t, pat, off)
    ensures FirstAt(p + t, pat, |p| + off)
  {
    OccursInRight(p, t, pat, off);
    forall j: nat | |p| <= j < |p| + off
      ensures !OccursAt(p + t, pat, j)
    {
      OccursInRight(p, t, pat, j - |p|);
    }
  }

  /** A prefix of a string keeps the occurrences that fit in it. */
  lemma FirstInPrefix(t: string, u: string, pat: string, off: nat)
    requires FirstAt(t, pat, off)
    ensures FirstAt(t + u, pat, off)
  {
    assert (t + u)[..|t|] == t;
    OccursInSharedPrefix(t, t + u, pat, |t|, off);
    forall j: nat | j < off
      ensures !OccursAt(t + u, pat, j)
    {
      OccursInSharedPrefix(t, t + u, pat, |t|, j);
    }
  }

  /** No marker starts inside the `<modules>` line that opens a synthesized container. */
  lemma NoTagInModulesOpenLine(tg: Tags, eol: string, indent: string, rest: string, pat: string)
    requires Style(eol, indent) && OpensElement(tg.modulesOpen) && TagShaped(pat)
    ensures forall j: nat :: j < OpenLineLength(tg, eol, indent) ==> !OccursAt(indent + tg.modulesOpen + eol + rest, pat, j)
  {
    var s := indent + tg.modulesOpen + eol + rest;
    var m := |indent|;
    forall j: nat | j < m + |tg.modulesOpen| + |eol|
      ensures !OccursAt(s, pat, j)
    {
      if j < m {
        assert s[j] == indent[j];
        Mismatch(s, pat, j, 0);
      } else if j == m {
        assert s[j + 1] == tg.modulesOpen[1];
        Mismatch(s, pat, j, 1);
      } else if j < m + |tg.modulesOpen| {
        assert s[j] == tg.modulesOpen[j - m];
        Mismatch(s, pat, j, 0);
      } else {
        assert s[j] == eol[j - m - |tg.modulesOpen|];
        Mismatch(s, pat, j, 0);
      }
    }
  }

  /** A marker first found at `off` in `t` is first found `|indent + <modules> + eol|` later behind the opening line. */
  lemma BehindModulesOpenLine(tg: Tags, eol: string, indent: string, t: string, pat: string, off: nat)
    requires Style(eol, indent) && OpensElement(tg.modulesOpen) && TagShaped(pat) && FirstAt(t, pat, off)
    ensures FirstAt(indent + tg.modulesOpen + eol + t, pat, OpenLineLength(tg, eol, indent) + off)
  {
    var p := indent + tg.modulesOpen + eol;
    NoTagInModulesOpenLine(tg, eol, indent, t, pat);
    assert p + t == indent + tg.modulesOpen + eol + t;
    FirstAfterPrefix(p, t, pat, off);
  }

  /** START, first found at `StartOffset` in `MarkerLines`, keeps that place in `MarkerLines + u`. */
  lemma MarkerLinesStartThenRest(tg: Tags, eol: string, indent: string, u: string)
    requires Style(eol, indent) && ValidTags(tg)
    ensures FirstAt(MarkerLines(tg, eol, indent) + u, tg.start, StartOffset(indent))
  {
    MarkerLinesLayout(tg, eol, indent);
    FirstInPrefix(MarkerLines(tg, eol, indent), u, tg.start, StartOffset(indent));
  }

  /** END, first found at `EndOffset` in `MarkerLines`, keeps that place in `MarkerLines + u`. */
  lemma MarkerLinesEndThenRest(tg: Tags, eol: string, indent: string, u: string)
    requires Style(eol, indent) && ValidTags(tg)
    ensures FirstAt(MarkerLines(tg, eol, indent) + u, tg.end, EndOffset(tg, eol, indent))
  {
    MarkerLinesLayout(tg, eol, indent);
    FirstInPrefix(MarkerLines(tg, eol, indent), u, tg.end, EndOffset(tg, eol, indent));
  }

  /** A marker first found at `off` in the body of `Container` is first found behind its opening line. */
  lemma ContainerMarker(tg: Tags, eol: string, indent: string, pat: string, off: nat)
    requires Style(eol, indent) && OpensElement(tg.modulesOpen) && TagShaped(pat)
    requires FirstAt(MarkerLines(tg, eol, indent) + (indent + tg.modulesClose + eol), pat, off)
    ensures FirstAt(Container(tg, eol, indent), pat, OpenLineLength(tg, eol, indent) + off)
  {
    var t := MarkerLines(tg, eol, indent) + (indent + tg.modulesClose + eol);
    ContainerSplit(tg, eol, indent);
    BehindModulesOpenLine(tg, eol, indent, t, pat, off);
  }

  lemma ContainerSplit(tg: Tags, eol: string, indent: string)
    ensures Container(tg, eol, indent)
      == indent + tg.modulesOpen + eol + (MarkerLines(tg, eol, indent) + (indent + tg.modulesClose + eol))
  {
    var p := indent + tg.modulesOpen + eol;
    var ml := MarkerLines(tg, eol, indent);
    ContainerShape(tg, eol, indent);
    Assoc(p + ml, indent + tg.modulesClose, eol);
    Assoc(p + ml, indent, tg.modulesClose);
    Assoc(p, ml, indent + tg.modulesClose + eol);
  }

  /** A synthesized container opens with its indentation and the `<` of `<modules>`. */
  lemma ContainerLeads(tg: Tags, eol: string, indent: string)
    requires Style(eol, indent) && OpensElement(tg.modulesOpen)
    ensures LeadsToTag(Container(tg, eol, indent), |indent|)
  {
    var c := Container(tg, eol, indent);
    ContainerShape(tg, eol, indent);
    assert c[|indent|] == tg.modulesOpen[0];
    forall i | 0 <= i < |indent| ensures IsSpace(c[i]) {
      assert c[i] == indent[i];
    }
  }

  /** Where START sits inside `Container`: behind its `<modules>` line, as in `MarkerLines`. */
  lemma ContainerStartLayout(tg: Tags, eol: string, indent: string)
    requires Style(eol, indent) && ValidTags(tg)
    ensures FirstAt(Container(tg, eol, indent), tg.start, ContainerStart(tg, eol, indent))
  {
    MarkerLinesStartThenRest(tg, eol, indent, indent + tg.modulesClose + eol);
    ContainerMarker(tg, eol, indent, tg.start, StartOffset(indent));
  }

  /** Where END sits inside `Container`. */
  lemma ContainerEndLayout(tg: Tags, eol: string, indent: string)
    requires Style(eol, indent) && ValidTags(tg)
    ensures FirstAt(Container(tg, eol, indent), tg.end, ContainerEnd(tg, eol, indent))
  {
    MarkerLinesEndThenRest(tg, eol, indent, indent + tg.modulesClose + eol);
    ContainerMarker(tg, eol, indent, tg.end, EndOffset(tg, eol, indent));
  }

  /**
   * The existing-container branch (:236-240) inserts the START and END
   * lines at `at` and then searches START again: with no START in the
   * document before, the search lands on the inserted one.
   */
  lemma MarkerLinesStartFound(tg: Tags, doc: string, at: nat, eol: string, indent: string)
    requires Style(eol, indent) && ValidTags(tg) && at <= |doc| && Absent(doc, tg.start)
    ensures IndexOf(doc[..at] + MarkerLines(tg, eol, indent) + doc[at..], tg.start) == Some(at + StartOffset(indent))
  {
    AbsentFromPrefix(doc, tg.start, at);
    MarkerLinesLayout(tg, eol, indent);
    StartInMarkerLines(tg, doc, at, eol, indent);
  }

  lemma StartInMarkerLines(tg: Tags, doc: string, at: nat, eol: string, indent: string)
    requires TagShaped(tg.start) && at <= |doc| && Absent(doc[..at], tg.start)
    requires LeadsToTag(MarkerLines(tg, eol, indent), StartOffset(indent))
    requires FirstAt(MarkerLines(tg, eol, indent), tg.start, StartOffset(indent))
    ensures IndexOf(doc[..at] + MarkerLines(tg, eol, indent) + doc[at..], tg.start) == Some(at + StartOffset(indent))
  {
    TagAfterInsertion(doc, at, MarkerLines(tg, eol, indent), tg.start, StartOffset(indent), StartOffset(indent));
  }

  /**
   * The synthesized-container branch (:228-231) inserts a whole `<modules>`
   * element at `e` and then searches START again: with no START in the
   * document before, the search lands on the START of the element.
   */
  lemma ContainerStartFound(tg: Tags, doc: string, e: nat, eol: string, indent: string)
    requires Style(eol, indent) && ValidTags(tg) && e <= |doc| && Absent(doc, tg.start)
    ensures IndexOf(doc[..e] + Container(tg, eol, indent) + doc[e..], tg.start) == Some(e + ContainerStart(tg, eol, indent))
  {
    AbsentFromPrefix(doc, tg.start, e);
    ContainerLeads(tg, eol, indent);
    ContainerStartLayout(tg, eol, indent);
    StartInContainer(tg, doc, e, eol, indent);
  }

  lemma StartInContainer(tg: Tags, doc: string, e: nat, eol: string, indent: string)
    requires TagShaped(tg.start) && e <= |doc| && Absent(doc[..e], tg.start)
    requires LeadsToTag(Container(tg, eol, indent), |indent|)
    requires FirstAt(Container(tg, eol, indent), tg.start, ContainerStart(tg, eol, indent))
    ensures IndexOf(doc[..e] + Container(tg, eol, indent) + doc[e..], tg.start) == Some(e + ContainerStart(tg, eol, indent))
  {
    TagAfterInsertion(doc, e, Container(tg, eol, indent), tg.start, |indent|, ContainerStart(tg, eol, indent));
  }

  /**
   * Makes sure the document holds a START marker (:224-242) and returns the
   * possibly extended text with the position of its first START marker.
   * Without START the marker lines go right after the first `<modules>` and
   * the line breaks that follow it; without `<modules>` either, a whole
   * container goes right before the last `</project>`.
   */
  function LocateRegion(tg: Tags, doc: string, path: string, eol: string, indent: string): (r: Result<(string, nat), SyncError>)
    ensures r.Failure? <==> Absent(doc, tg.start) && Absent(doc, tg.modulesOpen) && Absent(doc, tg.projectClose)
    ensures r.Failure? ==> r.error == ProjectCloseNotFound(path)
  {
    match IndexOf(doc, tg.start)
    case Some(s) => Success((doc, s))
    case None =>
      match IndexOf(doc, tg.modulesOpen)
      case Some(m) =>
        var at := ConsumeEol(doc, m + |tg.modulesOpen|);
        Success((doc[..at] + MarkerLines(tg, eol, indent) + doc[at..], at + StartOffset(indent)))
      case None =>
        match LastIndexOf(doc, tg.projectClose)
        case None => Failure(ProjectCloseNotFound(path))
        case Some(e) => Success((doc[..e] + Container(tg, eol, indent) + doc[e..], e + ContainerStart(tg, eol, indent)))
  }

  /**
   * From :243 on: empty the region between the end of the START marker at
   * `s` and the first END marker, leaving one line break and two indents,
   * then insert the module lines at the end of START.
   */
  function FillRegion(tg: Tags, t: string, s: nat, eol: string, indent: string, ms: seq<string>): (r: Result<string, SyncError>)
    ensures r.Success? <==> IndexOf(t, tg.end).Some? && IndexOf(t, tg.end).value >= s + |tg.start|
    ensures r.Failure? ==> r.error == RegionBoundsInvalid
    ensures r.Success? ==>
      r.value == t[..s + |tg.start|] + RegionBody(ms, eol, indent) + t[IndexOf(t, tg.end).value..]
  {
    var insertPos := s + |tg.start|;
    match IndexOf(t, tg.end)
    case None => Failure(RegionBoundsInvalid)
    case Some(d) =>
      if d < insertPos then Failure(RegionBoundsInvalid)
      else
        var cleared := t[..insertPos] + eol + indent + indent + t[d..];
        ClearThenInsert(t, insertPos, d, eol, indent, ms);
        Success(InsertBackwards(cleared, insertPos, ms, eol, indent, |ms|))
  }

  /** The style `addModules` detects: both come from the document as it was passed in (:220-222). */
  lemma DetectedStyle(doc: string)
    ensures Style(LineEnding(doc), DetectIndent(doc))
  {
  }

  /**
   * `addModules` from :224 on, once the line ending and the indentation
   * are known: make sure the markers exist, then make the region list
   * `modules` in order.
   */
  function Rewrite(tg: Tags, doc: string, path: string, eol: string, indent: string, modules: seq<string>): (r: Result<string, SyncError>)
    ensures r.Failure? ==> r.error == ProjectCloseNotFound(path) || r.error == RegionBoundsInvalid
    ensures r.Failure? && r.error == ProjectCloseNotFound(path) <==>
      Absent(doc, tg.start) && Absent(doc, tg.modulesOpen) && Absent(doc, tg.projectClose)
  {
    var located :- LocateRegion(tg, doc, path, eol, indent);
    FillRegion(tg, located.0, located.1, eol, indent, modules)
  }

  /** `addModules` for a given set of tags: detect the style (:220-222), then rewrite. */
  function Synchronize(tg: Tags, doc: string, path: string, modules: seq<string>): (r: Result<string, SyncError>)
    ensures r.Failure? ==> r.error == ProjectCloseNotFound(path) || r.error == RegionBoundsInvalid
    ensures r.Failure? && r.error == ProjectCloseNotFound(path) <==>
      Absent(doc, tg.start) && Absent(doc, tg.modulesOpen) && Absent(doc, tg.projectClose)
  {
    Rewrite(tg, doc, path, LineEnding(doc), DetectIndent(doc), modules)
  }

  /** `addModules` itself: the synchronizer with the plugin's markers. */
  function AddModules(doc: string, path: string, modules: seq<string>): (r: Result<string, SyncError>)
    ensures r.Failure? ==> r.error == ProjectCloseNotFound(path) || r.error == RegionBoundsInvalid
    ensures r.Failure? && r.error == ProjectCloseNotFound(path) <==>
      Absent(doc, StartMarker) && Absent(doc, ModulesOpen) && Absent(doc, ProjectClose)
  {
    Synchronize(PluginTags, doc, path, modules)
  }
}
