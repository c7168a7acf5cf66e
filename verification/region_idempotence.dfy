/**
 * A second run of the synchronizer in the same style, with the same module
 * list, leaves its own output unchanged, provided no module name holds END:
 * the START marker is still the first one, the END marker the synchronizer
 * kept is now the first one after the module lines, and the region between
 * them already holds exactly those lines. `RewriteTwice` covers a later run
 * in any style and with any list: it replaces exactly the region body the
 * first run wrote and keeps all other text.
 */
module RegionIdempotence {
  import opened Wrappers
  import opened Text
  import opened ManagedBlock
  import opened ManagedBlockProperties

  /** No module name holds an occurrence of `pat`. */
  predicate NoneHolds(ms: seq<string>, pat: string)
  {
    forall i :: 0 <= i < |ms| ==> Absent(ms[i], pat)
  }

  /** A tag-shaped pattern cannot start where a `<` lies strictly inside its span. */
  lemma NoTagAcross(s: string, pat: string, j: nat, b: nat)
    requires TagShaped(pat) && j < b < j + |pat| && b < |s| && s[b] == '<'
    ensures !OccursAt(s, pat, j)
  {
    Mismatch(s, pat, j, b - j);
  }

  /**
   * No occurrence of a tag-shaped pattern starts inside the line of one
   * module whose name holds none, whatever follows the line.
   */
  lemma NoTagInModuleLine(m: string, eol: string, indent: string, rest: string, pat: string, j: nat)
    requires TagShaped(pat) && Absent(m, pat) && Style(eol, indent)
    requires j < |ModuleLine(m, eol, indent)|
    ensures !OccursAt(ModuleLine(m, eol, indent) + rest, pat, j)
  {
    var w := eol + indent + indent;
    StyleIsSpace(eol, indent);
    AllSpaceConcat(indent, indent);
    AllSpaceConcat(eol, indent + indent);
    Assoc(eol, indent, indent);
    assert ModuleLine(m, eol, indent) + rest == w + "<module>" + m + "</module>" + rest;
    if j <= |w| + 8 {
      NoTagInLineStart(w, m, rest, pat, j);
    } else {
      NoTagInLineEnd(w, m, rest, pat, j);
    }
  }

  /** ... nor in the leading blanks, `<module>` or at the first character of the name. */
  lemma NoTagInLineStart(w: string, m: string, rest: string, pat: string, j: nat)
    requires TagShaped(pat) && Absent(m, pat) && AllSpace(w)
    requires j <= |w| + 8 && j < |w| + 17 + |m|
    ensures !OccursAt(w + "<module>" + m + "</module>" + rest, pat, j)
  {
    var t := w + "<module>" + m + "</module>" + rest;
    var a := |w|;
    if j < a {
      assert t[j] == w[j];
      Mismatch(t, pat, j, 0);
    } else if j == a {
      assert t[j + 1] == 'm';
      Mismatch(t, pat, j, 1);
    } else if j < a + 8 {
      assert t[j] == "<module>"[j - a];
      Mismatch(t, pat, j, 0);
    } else {
      NoTagInLineEnd(w, m, rest, pat, j);
    }
  }

  /** ... nor in the name or `</module>`. */
  lemma NoTagInLineEnd(w: string, m: string, rest: string, pat: string, j: nat)
    requires TagShaped(pat) && Absent(m, pat)
    requires |w| + 8 <= j < |w| + 17 + |m|
    ensures !OccursAt(w + "<module>" + m + "</module>" + rest, pat, j)
  {
    var t := w + "<module>" + m + "</module>" + rest;
    var a := |w|;
    var b := a + 8 + |m|;
    if j < b && j + |pat| <= b {
      var p := w + "<module>";
      assert t[..b] == p + m;
      OccursInSharedPrefix(t, p + m, pat, b, j);
      OccursInRight(p, m, pat, j - a - 8);
    } else if j < b {
      assert t[b] == '<';
      NoTagAcross(t, pat, j, b);
    } else if j == b {
      assert t[j + 1] == '/';
      Mismatch(t, pat, j, 1);
    } else {
      assert t[j] == "</module>"[j - b];
      Mismatch(t, pat, j, 0);
    }
  }

  /** The same for all the module lines. */
  lemma {:induction false} NoTagInModuleLines(ms: seq<string>, eol: string, indent: string, rest: string, pat: string, j: nat)
    requires TagShaped(pat) && NoneHolds(ms, pat) && Style(eol, indent)
    requires j < |ModuleLines(ms, eol, indent)|
    ensures !OccursAt(ModuleLines(ms, eol, indent) + rest, pat, j)
    decreases |ms|
  {
    var line := ModuleLine(ms[0], eol, indent);
    var tail := ModuleLines(ms[1..], eol, indent);
    Assoc(line, tail, rest);
    if j < |line| {
      NoTagInModuleLine(ms[0], eol, indent, tail + rest, pat, j);
    } else {
      OccursInRight(line, tail + rest, pat, j - |line|);
      NoTagInModuleLines(ms[1..], eol, indent, rest, pat, j - |line|);
    }
  }

  /**
   * The region body followed by text that opens with `pat`: the first
   * occurrence of `pat` is the one right behind the body.
   */
  lemma TagBehindRegionBody(ms: seq<string>, eol: string, indent: string, y: string, pat: string)
    requires TagShaped(pat) && NoneHolds(ms, pat) && Style(eol, indent)
    requires OccursAt(y, pat, 0)
    ensures FirstAt(RegionBody(ms, eol, indent) + y, pat, |RegionBody(ms, eol, indent)|)
  {
    var lines := ModuleLines(ms, eol, indent);
    var w := eol + indent + indent;
    var u := RegionBody(ms, eol, indent);
    var t := u + y;
    OccursInRight(u, y, pat, 0);
    Assoc(lines, eol, indent);
    Assoc(lines, eol + indent, indent);
    Assoc(lines, w, y);
    forall j: nat | j < |u|
      ensures !OccursAt(t, pat, j)
    {
      if j < |lines| {
        NoTagInModuleLines(ms, eol, indent, w + y, pat, j);
      } else {
        StyleIsSpace(eol, indent);
        AllSpaceConcat(indent, indent);
        AllSpaceConcat(eol, indent + indent);
        Assoc(eol, indent, indent);
        assert t[j] == w[j - |lines|];
        Mismatch(t, pat, j, 0);
      }
    }
  }

  /** The characters of an occurrence are those of the pattern. */
  lemma CharOfOccurrence(s: string, pat: string, j: nat, k: nat)
    requires OccursAt(s, pat, j) && k < |pat|
    ensures s[j + k] == pat[k]
  {
    assert s[j..j + |pat|][k] == s[j + k];
  }

  /**
   * No END straddles the end of a text that ends with START, since the two
   * markers are tag-shaped and differ at index 5.
   */
  lemma NoEndAcrossStart(tg: Tags, x: string, z: string, j: nat)
    requires ValidTags(tg)
    requires |tg.start| <= |x| && OccursAt(x, tg.start, |x| - |tg.start|)
    requires j < |x| < j + |tg.end|
    ensures !OccursAt(x + z, tg.end, j)
  {
    var t := x + z;
    var s := |x| - |tg.start|;
    if j < s {
      CharOfOccurrence(x, tg.start, s, 0);
      assert t[s] == x[s];
      NoTagAcross(t, tg.end, j, s);
    } else if j == s {
      CharOfOccurrence(x, tg.start, s, 5);
      assert t[s + 5] == x[s + 5];
      Mismatch(t, tg.end, j, 5);
    } else {
      CharOfOccurrence(x, tg.start, s, j - s);
      assert t[j] == x[j];
      Mismatch(t, tg.end, j, 0);
    }
  }

  /**
   * Text that ends with START and holds no END, then the region body, then
   * text that opens with END: the first END is the one behind the body.
   */
  lemma EndBehindBody(tg: Tags, x: string, ms: seq<string>, eol: string, indent: string, y: string)
    requires ValidTags(tg) && Style(eol, indent) && NoneHolds(ms, tg.end)
    requires |tg.start| <= |x| && OccursAt(x, tg.start, |x| - |tg.start|) && Absent(x, tg.end)
    requires OccursAt(y, tg.end, 0)
    ensures FirstAt(x + RegionBody(ms, eol, indent) + y, tg.end, |x| + |RegionBody(ms, eol, indent)|)
  {
    var u := RegionBody(ms, eol, indent);
    var t := x + (u + y);
    Assoc(x, u, y);
    TagBehindRegionBody(ms, eol, indent, y, tg.end);
    OccursInRight(x, u + y, tg.end, |u|);
    forall j: nat | j < |x| + |u|
      ensures !OccursAt(t, tg.end, j)
    {
      if j >= |x| {
        assert !OccursAt(u + y, tg.end, j - |x|);
        OccursInRight(x, u + y, tg.end, j - |x|);
      } else {
        NoEndInStartPart(tg, x, u + y, j);
      }
    }
  }

  /** No END starts inside a text that ends with START and holds no END, whatever follows. */
  lemma NoEndInStartPart(tg: Tags, x: string, z: string, j: nat)
    requires ValidTags(tg)
    requires |tg.start| <= |x| && OccursAt(x, tg.start, |x| - |tg.start|) && Absent(x, tg.end)
    requires j < |x|
    ensures !OccursAt(x + z, tg.end, j)
  {
    if j + |tg.end| <= |x| {
      TwoPieces(x, z);
      assert x[..|x|] == x && !OccursAt(x, tg.end, j);
      OccursInSharedPrefix(x, x + z, tg.end, |x|, j);
    } else {
      NoEndAcrossStart(tg, x, z, j);
    }
  }

  /** The first START of a text is still the first one of any text sharing the prefix through its end. */
  lemma StartKept(t: string, r: string, pat: string, s: nat)
    requires IndexOf(t, pat) == Some(s)
    requires s + |pat| <= |t| && s + |pat| <= |r| && t[..s + |pat|] == r[..s + |pat|]
    ensures IndexOf(r, pat) == Some(s)
  {
    OccursInSharedPrefix(t, r, pat, s + |pat|, s);
    forall j: nat | j < s
      ensures !OccursAt(r, pat, j)
    {
      OccursInSharedPrefix(t, r, pat, s + |pat|, j);
    }
    IndexOfIsLeast(r, pat, s);
  }

  /**
   * Filling a region whose START is the first one of the text: in the
   * result START is still first and the region holds exactly the body, so
   * filling it again, in any style and with any list, replaces that body
   * and nothing else, as long as no module name of the first fill holds END.
   */
  lemma FillRegionTwice(tg: Tags, t: string, s: nat, eol: string, indent: string, ms: seq<string>,
                        eol': string, indent': string, ms': seq<string>)
    requires ValidTags(tg) && Style(eol, indent) && NoneHolds(ms, tg.end)
    requires IndexOf(t, tg.start) == Some(s)
    requires FillRegion(tg, t, s, eol, indent, ms).Success?
    ensures var r := FillRegion(tg, t, s, eol, indent, ms).value;
      var ip := s + |tg.start|;
      var u := RegionBody(ms, eol, indent);
      && IndexOf(r, tg.start) == Some(s)
      && ip + |u| <= |r| && r[ip..ip + |u|] == u
      && FillRegion(tg, r, s, eol', indent', ms') == Success(r[..ip] + RegionBody(ms', eol', indent') + r[ip + |u|..])
  {
    var ip := s + |tg.start|;
    var x := t[..ip];
    var y := t[IndexOf(t, tg.end).value..];
    var u := RegionBody(ms, eol, indent);
    var r := x + u + y;
    assert |x| == ip;
    FilledPieces(tg, t, s);
    Slices(x, u, y);
    StartKept(t, r, tg.start, s);
    Refill(tg, x, s, ms, eol, indent, y, eol', indent', ms');
  }

  /** The three parts of a concatenation, recovered by slicing. */
  lemma Slices(x: string, u: string, y: string)
    ensures (x + u + y)[..|x|] == x
    ensures (x + u + y)[|x|..|x| + |u|] == u
    ensures (x + u + y)[|x| + |u|..] == y
  {
  }

  /** The special case of the same style and list: filling a filled region changes nothing. */
  lemma FillRegionIdempotent(tg: Tags, t: string, s: nat, eol: string, indent: string, ms: seq<string>)
    requires ValidTags(tg) && Style(eol, indent) && NoneHolds(ms, tg.end)
    requires IndexOf(t, tg.start) == Some(s)
    requires FillRegion(tg, t, s, eol, indent, ms).Success?
    ensures var r := FillRegion(tg, t, s, eol, indent, ms).value;
      && IndexOf(r, tg.start) == Some(s)
      && FillRegion(tg, r, s, eol, indent, ms) == Success(r)
  {
    var r := FillRegion(tg, t, s, eol, indent, ms).value;
    var ip := s + |tg.start|;
    var u := RegionBody(ms, eol, indent);
    FillRegionTwice(tg, t, s, eol, indent, ms, eol, indent, ms);
    Rejoin(r, ip, u);
  }

  /**
   * What `FillRegion` keeps of the text: the part through the first START,
   * which ends with START and holds no END, and the part from the first END.
   */
  lemma FilledPieces(tg: Tags, t: string, s: nat)
    requires |tg.end| > 0 && IndexOf(t, tg.start) == Some(s)
    requires IndexOf(t, tg.end).Some? && IndexOf(t, tg.end).value >= s + |tg.start|
    ensures OccursAt(t[..s + |tg.start|], tg.start, s)
    ensures Absent(t[..s + |tg.start|], tg.end)
    ensures OccursAt(t[IndexOf(t, tg.end).value..], tg.end, 0)
  {
    var ip := s + |tg.start|;
    var d := IndexOf(t, tg.end).value;
    assert t[..ip][s..ip] == t[s..ip];
    AbsentBeforeFirst(t, tg.end, ip);
    assert t[d..][..|tg.end|] == t[d..d + |tg.end|];
  }

  /**
   * Text that ends with START and holds no END, a region body, and text
   * that opens with END: filling the region replaces just that body.
   */
  lemma Refill(tg: Tags, x: string, s: nat, ms: seq<string>, eol: string, indent: string, y: string,
               eol': string, indent': string, ms': seq<string>)
    requires ValidTags(tg) && Style(eol, indent) && NoneHolds(ms, tg.end)
    requires s + |tg.start| == |x| && OccursAt(x, tg.start, s) && Absent(x, tg.end)
    requires OccursAt(y, tg.end, 0)
    ensures FillRegion(tg, x + RegionBody(ms, eol, indent) + y, s, eol', indent', ms')
      == Success(x + RegionBody(ms', eol', indent') + y)
  {
    var u := RegionBody(ms, eol, indent);
    var r := x + u + y;
    EndBehindBody(tg, x, ms, eol, indent, y);
    FillAtFirstEnd(tg, r, s, |x| + |u|, eol', indent', ms');
    TwoPieces(x + u, y);
    assert r[..s + |tg.start|] == x;
  }

  /** With the first END at `d`, filling the region keeps the text through START and from END on. */
  lemma FillAtFirstEnd(tg: Tags, r: string, s: nat, d: nat, eol: string, indent: string, ms: seq<string>)
    requires FirstAt(r, tg.end, d) && s + |tg.start| <= d
    ensures FillRegion(tg, r, s, eol, indent, ms) == Success(r[..s + |tg.start|] + RegionBody(ms, eol, indent) + r[d..])
  {
    IndexOfIsLeast(r, tg.end, d);
    FillRegionText(tg, r, s, d, eol, indent, ms, r[..s + |tg.start|], r[d..]);
  }

  /** With a START marker at `s`, the rewrite fills the region that follows it. */
  lemma RewriteFromStart(tg: Tags, doc: string, path: string, eol: string, indent: string, modules: seq<string>, s: nat)
    requires IndexOf(doc, tg.start) == Some(s)
    ensures Rewrite(tg, doc, path, eol, indent, modules) == FillRegion(tg, doc, s, eol, indent, modules)
  {
  }

  /**
   * Running the rewrite on its own output, whichever of the three starting
   * states the first run met: the region between the first START and the
   * first END holds exactly the first run's body, and the second run, in
   * any style and with any list, replaces that body and nothing else, as
   * long as no module name of the first run holds END.
   */
  lemma RewriteTwice(tg: Tags, doc: string, path: string, eol: string, indent: string, modules: seq<string>, r: string,
                     eol': string, indent': string, modules': seq<string>)
    requires Style(eol, indent) && ValidTags(tg) && NoneHolds(modules, tg.end)
    requires Rewrite(tg, doc, path, eol, indent, modules) == Success(r)
    ensures Redrawn(tg, r, path, RegionBody(modules, eol, indent), eol', indent', modules')
  {
    var l := LocateRegion(tg, doc, path, eol, indent);
    RewriteSteps(tg, doc, path, eol, indent, modules);
    assert l.Success?;
    LocatedStartIsFirst(tg, doc, path, eol, indent);
    RewriteFilled(tg, l.value.0, l.value.1, r, path, eol, indent, modules, eol', indent', modules');
  }

  /**
   * The region behind the first START of `r` holds exactly `u`, and a
   * rewrite of `r` in the given style and with the given list replaces
   * that and nothing else.
   */
  predicate Redrawn(tg: Tags, r: string, path: string, u: string, eol: string, indent: string, modules: seq<string>)
  {
    && IndexOf(r, tg.start).Some?
    && var ip := IndexOf(r, tg.start).value + |tg.start|;
    && ip + |u| <= |r| && r[ip..ip + |u|] == u
    && Rewrite(tg, r, path, eol, indent, modules) == Success(r[..ip] + RegionBody(modules, eol, indent) + r[ip + |u|..])
  }

  /** A later rewrite whose region body differs in length from the one in place does not return its input. */
  lemma RedrawnChangesText(tg: Tags, r: string, path: string, u: string, eol: string, indent: string, modules: seq<string>)
    requires Redrawn(tg, r, path, u, eol, indent, modules)
    requires |RegionBody(modules, eol, indent)| != |u|
    ensures Rewrite(tg, r, path, eol, indent, modules) != Success(r)
  {
  }

  /** `RewriteTwice` once the first run is known to be a fill of the region behind the first START. */
  lemma RewriteFilled(tg: Tags, t: string, s: nat, r: string, path: string, eol: string, indent: string, modules: seq<string>,
                      eol': string, indent': string, modules': seq<string>)
    requires Style(eol, indent) && ValidTags(tg) && NoneHolds(modules, tg.end)
    requires IndexOf(t, tg.start) == Some(s)
    requires FillRegion(tg, t, s, eol, indent, modules) == Success(r)
    ensures Redrawn(tg, r, path, RegionBody(modules, eol, indent), eol', indent', modules')
  {
    FillRegionTwice(tg, t, s, eol, indent, modules, eol', indent', modules');
    var ip := s + |tg.start|;
    var u := RegionBody(modules, eol, indent);
    var out := r[..ip] + RegionBody(modules', eol', indent') + r[ip + |u|..];
    assert IndexOf(r, tg.start) == Some(s);
    assert FillRegion(tg, r, s, eol', indent', modules') == Success(out);
    RewriteAgain(tg, r, path, s, eol', indent', modules', out);
    RedrawnIntro(tg, r, path, s, u, eol', indent', modules', out);
  }

  lemma RedrawnIntro(tg: Tags, r: string, path: string, s: nat, u: string, eol: string, indent: string, modules: seq<string>, out: string)
    requires IndexOf(r, tg.start) == Some(s)
    requires s + |tg.start| + |u| <= |r| && r[s + |tg.start|..s + |tg.start| + |u|] == u
    requires out == r[..s + |tg.start|] + RegionBody(modules, eol, indent) + r[s + |tg.start| + |u|..]
    requires Rewrite(tg, r, path, eol, indent, modules) == Success(out)
    ensures Redrawn(tg, r, path, u, eol, indent, modules)
  {
  }

  /** A rewrite of a text whose first START is at `s` is the fill of the region behind it. */
  lemma RewriteAgain(tg: Tags, r: string, path: string, s: nat, eol: string, indent: string, modules: seq<string>, out: string)
    requires IndexOf(r, tg.start) == Some(s)
    requires FillRegion(tg, r, s, eol, indent, modules) == Success(out)
    ensures Rewrite(tg, r, path, eol, indent, modules) == Success(out)
  {
    RewriteFromStart(tg, r, path, eol, indent, modules, s);
  }

  /**
   * The special case of the same style and list: a second rewrite returns
   * the first one's output.
   */
  lemma RewriteIdempotent(tg: Tags, doc: string, path: string, eol: string, indent: string, modules: seq<string>)
    requires Style(eol, indent) && ValidTags(tg) && NoneHolds(modules, tg.end)
    requires Rewrite(tg, doc, path, eol, indent, modules).Success?
    ensures var r := Rewrite(tg, doc, path, eol, indent, modules).value;
      Rewrite(tg, r, path, eol, indent, modules) == Success(r)
  {
    var l := LocateRegion(tg, doc, path, eol, indent);
    LocatedStartIsFirst(tg, doc, path, eol, indent);
    RewriteSteps(tg, doc, path, eol, indent, modules);
    FillRegionIdempotent(tg, l.value.0, l.value.1, eol, indent, modules);
    RewriteFromStart(tg, Rewrite(tg, doc, path, eol, indent, modules).value, path, eol, indent, modules, l.value.1);
  }

  /** A text is the part before a slice, the slice, and the part after it. */
  lemma Rejoin(r: string, ip: nat, u: string)
    requires ip + |u| <= |r| && r[ip..ip + |u|] == u
    ensures r[..ip] + u + r[ip + |u|..] == r
  {
  }
}
