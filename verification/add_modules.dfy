/**
 * `addModules` as the plugin calls it: the style is detected from the
 * document (GenerateTestModulesMojo.java:220-222) and the plugin's own markers are used. The theorems
 * proved for every valid marker pair and every style are read off here for
 * that choice, together with what the detection adds: the output keeps the
 * line ending of the input, so a second run detects the same one.
 * Bare line numbers below are lines of `GenerateTestModulesMojo.java`.
 */
module AddModulesProperties {
  import opened Wrappers
  import opened Text
  import opened IndentPattern
  import opened ManagedBlock
  import opened ManagedBlockProperties
  import opened RegionIdempotence

  /** No module name holds a carriage return. */
  predicate NoCarriageReturn(ms: seq<string>)
  {
    forall i :: 0 <= i < |ms| ==> '\r' !in ms[i]
  }

  lemma {:induction false} ModuleLinesWithoutCR(ms: seq<string>, eol: string, indent: string)
    requires NoCarriageReturn(ms) && '\r' !in eol && '\r' !in indent
    ensures '\r' !in ModuleLines(ms, eol, indent)
    decreases |ms|
  {
    if |ms| > 0 {
      assert '\r' !in ms[0];
      ModuleLinesWithoutCR(ms[1..], eol, indent);
    }
  }

  lemma BlanksWithoutCR(indent: string)
    requires forall i :: 0 <= i < |indent| ==> IsBlank(indent[i])
    ensures '\r' !in indent
  {
  }

  /** Without carriage returns in the document and the style, the extended text has none either. */
  lemma LocatedWithoutCR(tg: Tags, doc: string, path: string, eol: string, indent: string)
    requires ValidTags(tg) && '\r' !in doc && '\r' !in eol && '\r' !in indent
    ensures var l := LocateRegion(tg, doc, path, eol, indent);
      l.Success? ==> '\r' !in l.value.0
  {
    MarkerLinesShape(tg, eol, indent);
    ContainerShape(tg, eol, indent);
  }

  /** Filling a region inserts only the style and the module names. */
  lemma FilledWithoutCR(tg: Tags, t: string, s: nat, eol: string, indent: string, ms: seq<string>)
    requires '\r' !in t && '\r' !in eol && '\r' !in indent && NoCarriageReturn(ms)
    ensures var r := FillRegion(tg, t, s, eol, indent, ms);
      r.Success? ==> '\r' !in r.value
  {
    ModuleLinesWithoutCR(ms, eol, indent);
  }

  /** A filled region holds a line ending. */
  lemma FilledWithEol(tg: Tags, t: string, s: nat, eol: string, indent: string, ms: seq<string>, c: char)
    requires c in eol
    ensures var r := FillRegion(tg, t, s, eol, indent, ms);
      r.Success? ==> c in r.value
  {
  }

  /**
   * The rewrite with the detected line ending produces a carriage return
   * exactly when the document holds one, provided no module name does.
   */
  lemma RewriteKeepsCR(tg: Tags, doc: string, path: string, indent: string, modules: seq<string>)
    requires ValidTags(tg) && NoCarriageReturn(modules)
    requires forall i :: 0 <= i < |indent| ==> IsBlank(indent[i])
    requires Rewrite(tg, doc, path, LineEnding(doc), indent, modules).Success?
    ensures '\r' in Rewrite(tg, doc, path, LineEnding(doc), indent, modules).value <==> '\r' in doc
  {
    var eol := LineEnding(doc);
    var l := LocateRegion(tg, doc, path, eol, indent);
    RewriteSteps(tg, doc, path, eol, indent, modules);
    if '\r' in doc {
      assert eol[0] == '\r';
      FilledWithEol(tg, l.value.0, l.value.1, eol, indent, modules, '\r');
    } else {
      BlanksWithoutCR(indent);
      LocatedWithoutCR(tg, doc, path, eol, indent);
      FilledWithoutCR(tg, l.value.0, l.value.1, eol, indent, modules);
    }
  }

  // ----- the three starting states -----

  /**
   * With a START marker (:224-225, :243-250): the text through the first
   * START, the module lines in list order with the detected style, a line
   * break and two indents, then the text from the first END on; the range
   * error exactly when no END lies at or after the end of START.
   */
  lemma AddModulesWithMarkers(doc: string, path: string, modules: seq<string>)
    requires IndexOf(doc, StartMarker).Some?
    ensures var ip := IndexOf(doc, StartMarker).value + |StartMarker|;
      var r := AddModules(doc, path, modules);
      && (r.Success? <==> IndexOf(doc, EndMarker).Some? && IndexOf(doc, EndMarker).value >= ip)
      && (r.Failure? ==> r.error == RegionBoundsInvalid)
      && (r.Success? ==> r.value == doc[..ip] + RegionBody(modules, LineEnding(doc), DetectIndent(doc))
                                    + doc[IndexOf(doc, EndMarker).value..])
  {
    RewriteWithMarkers(PluginTags, doc, path, LineEnding(doc), DetectIndent(doc), modules);
  }

  /**
   * No START but `<modules>` (:236-240): the range error exactly when an END
   * marker ends before the spot behind `<modules>` and its line breaks.
   */
  lemma AddModulesExistingOutcome(doc: string, path: string, modules: seq<string>)
    requires Absent(doc, StartMarker) && IndexOf(doc, ModulesOpen).Some?
    ensures var r := AddModules(doc, path, modules);
      && (r.Success? <==> !EndsBefore(doc, EndMarker, MarkerLinesAt(PluginTags, doc)))
      && (r.Failure? ==> r.error == RegionBoundsInvalid)
  {
    DetectedStyle(doc);
    PluginTagsValid();
    RewriteExistingOutcome(PluginTags, doc, path, LineEnding(doc), DetectIndent(doc), modules);
  }

  /**
   * Otherwise the START line, the module lines and the END line go right
   * behind `<modules>` and its line breaks; entries already there follow
   * the END line unchanged.
   */
  lemma AddModulesIntoExistingContainer(doc: string, path: string, modules: seq<string>)
    requires Absent(doc, StartMarker) && IndexOf(doc, ModulesOpen).Some?
    requires !EndsBefore(doc, EndMarker, MarkerLinesAt(PluginTags, doc))
    ensures var at := MarkerLinesAt(PluginTags, doc);
      var eol := LineEnding(doc);
      var indent := DetectIndent(doc);
      AddModules(doc, path, modules)
        == Success(doc[..at] + (indent + indent + StartMarker) + RegionBody(modules, eol, indent) + (EndMarker + eol + doc[at..]))
  {
    DetectedStyle(doc);
    PluginTagsValid();
    RewriteIntoExistingContainer(PluginTags, doc, path, LineEnding(doc), DetectIndent(doc), modules);
  }

  /**
   * Neither START nor `<modules>` but a `</project>` (:226-232): the range
   * error exactly when an END marker ends before the last `</project>`.
   */
  lemma AddModulesSynthesizedOutcome(doc: string, path: string, modules: seq<string>)
    requires Absent(doc, StartMarker) && Absent(doc, ModulesOpen) && LastIndexOf(doc, ProjectClose).Some?
    ensures var r := AddModules(doc, path, modules);
      && (r.Success? <==> !EndsBefore(doc, EndMarker, ContainerAt(PluginTags, doc)))
      && (r.Failure? ==> r.error == RegionBoundsInvalid)
  {
    DetectedStyle(doc);
    PluginTagsValid();
    RewriteSynthesizedOutcome(PluginTags, doc, path, LineEnding(doc), DetectIndent(doc), modules);
  }

  /**
   * Otherwise a `<modules>` element with the START line, the module lines
   * and the END line goes right before the last `</project>`, keeping the
   * text on both sides.
   */
  lemma AddModulesSynthesizesContainer(doc: string, path: string, modules: seq<string>)
    requires Absent(doc, StartMarker) && Absent(doc, ModulesOpen) && LastIndexOf(doc, ProjectClose).Some?
    requires !EndsBefore(doc, EndMarker, ContainerAt(PluginTags, doc))
    ensures var e := ContainerAt(PluginTags, doc);
      var eol := LineEnding(doc);
      var indent := DetectIndent(doc);
      AddModules(doc, path, modules)
        == Success(doc[..e] + (indent + ModulesOpen + eol + (indent + indent + StartMarker))
                   + RegionBody(modules, eol, indent)
                   + (EndMarker + eol + (indent + ModulesClose + eol) + doc[e..]))
  {
    DetectedStyle(doc);
    PluginTagsValid();
    RewriteSynthesizesContainer(PluginTags, doc, path, LineEnding(doc), DetectIndent(doc), modules);
  }

  // ----- style and idempotence -----

  /** The output holds a carriage return exactly when the input does, so its detected line ending is the same. */
  lemma AddModulesKeepsLineEnding(doc: string, path: string, modules: seq<string>)
    requires NoCarriageReturn(modules) && AddModules(doc, path, modules).Success?
    ensures LineEnding(AddModules(doc, path, modules).value) == LineEnding(doc)
  {
    PluginTagsValid();
    RewriteKeepsCR(PluginTags, doc, path, DetectIndent(doc), modules);
  }

  /**
   * A second run with the same modules returns the first run's output,
   * when the output's detected indentation is the input's, no module name
   * holds END and none holds a carriage return.
   */
  lemma AddModulesIdempotent(doc: string, path: string, modules: seq<string>)
    requires AddModules(doc, path, modules).Success?
    requires NoneHolds(modules, EndMarker) && NoCarriageReturn(modules)
    requires DetectIndent(AddModules(doc, path, modules).value) == DetectIndent(doc)
    ensures var r := AddModules(doc, path, modules).value;
      AddModules(r, path, modules) == Success(r)
  {
    DetectedStyle(doc);
    PluginTagsValid();
    AddModulesKeepsLineEnding(doc, path, modules);
    RewriteIdempotent(PluginTags, doc, path, LineEnding(doc), DetectIndent(doc), modules);
  }

  /**
   * With markers present the run keeps the text through the first START,
   * so when the first find of the indentation pattern lies there, the
   * output's detected indentation is the input's.
   */
  lemma MarkersKeepIndent(doc: string, path: string, modules: seq<string>)
    requires IndexOf(doc, StartMarker).Some? && AddModules(doc, path, modules).Success?
    requires FirstMatch(doc, 0).Some?
    requires FirstMatch(doc, 0).value.to < IndexOf(doc, StartMarker).value + |StartMarker|
    ensures DetectIndent(AddModules(doc, path, modules).value) == DetectIndent(doc)
  {
    var r := AddModules(doc, path, modules).value;
    AddModulesIsRewrite(doc, path, modules);
    RewriteKeepsThroughStart(PluginTags, doc, path, LineEnding(doc), DetectIndent(doc), modules, r);
    DetectIndentDependsOnPrefix(doc, r, IndexOf(doc, StartMarker).value + |StartMarker|);
  }

  /**
   * A later run on the output, with any module list: the region behind the
   * first START holds exactly what the first run wrote, and the later run
   * (`AddModules` on the output is the rewrite in the style detected on the
   * output, see `AddModulesIsRewrite`) replaces that and nothing else.
   */
  lemma AddModulesTwice(doc: string, path: string, modules: seq<string>, r: string, modules': seq<string>)
    requires AddModules(doc, path, modules) == Success(r) && NoneHolds(modules, EndMarker)
    ensures Redrawn(PluginTags, r, path, RegionBody(modules, LineEnding(doc), DetectIndent(doc)), LineEnding(r), DetectIndent(r), modules')
  {
    DetectedStyle(doc);
    PluginTagsValid();
    AddModulesIsRewrite(doc, path, modules);
    RewriteTwice(PluginTags, doc, path, LineEnding(doc), DetectIndent(doc), modules, r, LineEnding(r), DetectIndent(r), modules');
  }

  /** `addModules` is the rewrite with the plugin's markers in the style it detects on its input. */
  lemma AddModulesIsRewrite(doc: string, path: string, modules: seq<string>)
    ensures AddModules(doc, path, modules) == Rewrite(PluginTags, doc, path, LineEnding(doc), DetectIndent(doc), modules)
  {
  }

  /** Idempotence with markers present, with every hypothesis about the input. */
  lemma AddModulesIdempotentWithMarkers(doc: string, path: string, modules: seq<string>)
    requires IndexOf(doc, StartMarker).Some? && AddModules(doc, path, modules).Success?
    requires FirstMatch(doc, 0).Some?
    requires FirstMatch(doc, 0).value.to < IndexOf(doc, StartMarker).value + |StartMarker|
    requires NoneHolds(modules, EndMarker) && NoCarriageReturn(modules)
    ensures var r := AddModules(doc, path, modules).value;
      AddModules(r, path, modules) == Success(r)
  {
    MarkersKeepIndent(doc, path, modules);
    AddModulesIdempotent(doc, path, modules);
  }

  // ----- why idempotence needs the indentation hypothesis -----

  /** A project element that holds nothing but the indentation before its closing tag. */
  const EmptyProject := "<project>\n  </project>"

  /**
   * A document that starts with `<project>`, a line break, the blanks `w`
   * and then a tag has indentation `w`.
   */
  lemma IndentAfterProjectLine(d: string, w: string)
    requires forall i :: 0 <= i < |w| ==> IsBlank(w[i])
    requires 10 + |w| < |d| && d[..9] == "<project>" && d[9] == '\n'
    requires d[10..10 + |w|] == w && d[10 + |w|] == '<'
    ensures FirstMatch(d, 0) == Some(IndentMatch(0, 8, 10, 10 + |w|))
    ensures DetectIndent(d) == w
  {
    var b := 10 + |w|;
    assert d[0..8] == d[..9][..8];
    assert forall i :: 10 <= i < b ==> d[i] == w[i - 10];
    assert PatternMatch(d, 0, 8, 10, b);
    LeftmostMatchGivesIndent(d, 0, 8, 10, b);
  }

  /** `EmptyProject` is shorter than either marker. */
  lemma EmptyProjectHasNoMarkers()
    ensures Absent(EmptyProject, StartMarker) && Absent(EmptyProject, EndMarker)
  {
  }

  /** `EmptyProject` holds no `<modules>`: its only two `<` are followed by `p` and `/`. */
  lemma EmptyProjectHasNoModules()
    ensures Absent(EmptyProject, ModulesOpen)
  {
    var d := EmptyProject;
    forall j: nat | j <= |d|
      ensures !OccursAt(d, ModulesOpen, j)
    {
      if j + |ModulesOpen| <= |d| {
        if d[j] == '<' {
          Mismatch(d, ModulesOpen, j, 1);
        } else {
          Mismatch(d, ModulesOpen, j, 0);
        }
      }
    }
  }

  /** The closing tag of `EmptyProject` is at 12, behind `<project>`, a line break and two blanks. */
  lemma EmptyProjectClose()
    ensures LastIndexOf(EmptyProject, ProjectClose) == Some(12)
  {
    assert EmptyProject[12..22] == ProjectClose;
    assert OccursAt(EmptyProject, ProjectClose, 12);
  }

  lemma EmptyProjectStyle()
    ensures LineEnding(EmptyProject) == "\n" && DetectIndent(EmptyProject) == "  "
  {
    var d := EmptyProject;
    assert d[..9] == "<project>" && d[9] == '\n';
    assert d[10..12] == "  " && d[12] == '<';
    IndentAfterProjectLine(d, "  ");
    assert '\r' !in d;
  }

  /** The output of the first run on `EmptyProject`, with no modules: a container right before `</project>`. */
  const EmptyProjectOutput := EmptyProject[..12]
    + ("  " + ModulesOpen + "\n" + ("  " + "  " + StartMarker))
    + RegionBody([], "\n", "  ")
    + (EndMarker + "\n" + ("  " + ModulesClose + "\n") + EmptyProject[12..])

  lemma EmptyProjectFirstRun(path: string)
    ensures AddModules(EmptyProject, path, []) == Success(EmptyProjectOutput)
  {
    EmptyProjectHasNoMarkers();
    EmptyProjectHasNoModules();
    EmptyProjectClose();
    EmptyProjectStyle();
    AddModulesSynthesizesContainer(EmptyProject, path, []);
  }

  /** The first find of the indentation pattern in the output now ends at `<modules>`: four blanks. */
  lemma EmptyProjectOutputIndent()
    ensures LineEnding(EmptyProjectOutput) == "\n" && DetectIndent(EmptyProjectOutput) == "    "
  {
    var q := "<project>\n    <";
    EmptyProjectOutputPrefix();
    IndentAfterProjectLine(q, "    ");
    DetectIndentDependsOnPrefix(q, EmptyProjectOutput, 15);
    EmptyProjectOutputWithoutCR();
  }

  lemma EmptyProjectOutputPrefix()
    ensures |EmptyProjectOutput| >= 15 && EmptyProjectOutput[..15] == "<project>\n    <"
  {
    var p := EmptyProject[..12];
    var h := "  " + ModulesOpen + "\n" + ("  " + "  " + StartMarker);
    var t := EndMarker + "\n" + ("  " + ModulesClose + "\n") + EmptyProject[12..];
    var bt := RegionBody([], "\n", "  ") + t;
    Assoc(p + h, RegionBody([], "\n", "  "), t);
    Assoc(p, h, bt);
    assert EmptyProjectOutput == p + (h + bt);
    assert p == "<project>\n  ";
    assert (h + bt)[..3] == "  <";
    PrefixOfJoin(p, h + bt, 3);
  }

  lemma EmptyProjectOutputWithoutCR()
    ensures '\r' !in EmptyProjectOutput
  {
    PluginTagsValid();
    var h := "  " + ModulesOpen + "\n" + ("  " + "  " + StartMarker);
    var t := EndMarker + "\n" + ("  " + ModulesClose + "\n") + EmptyProject[12..];
    assert '\r' !in EmptyProject && '\r' !in ModulesOpen && '\r' !in ModulesClose;
    assert '\r' !in h && '\r' !in t;
    assert '\r' !in RegionBody([], "\n", "  ");
  }

  /** A prefix reaching `n` characters into the right part of a concatenation. */
  lemma PrefixOfJoin(a: string, b: string, n: nat)
    requires n <= |b|
    ensures (a + b)[..|a| + n] == a + b[..n]
  {
  }

  /**
   * `EmptyProject` detects the indentation of its closing tag, two blanks.
   * The first run inserts a `<modules>` element in front of that tag, so
   * the output detects four blanks, and the second run redraws the region
   * with four-blank indents: `addModules` is not idempotent on it, even
   * with no modules.
   */
  lemma IndentShiftBreaksIdempotence(path: string)
    ensures AddModules(EmptyProject, path, []) == Success(EmptyProjectOutput)
    ensures DetectIndent(EmptyProject) == "  " && DetectIndent(EmptyProjectOutput) == "    "
    ensures AddModules(EmptyProjectOutput, path, []) != Success(EmptyProjectOutput)
  {
    var r := EmptyProjectOutput;
    EmptyProjectFirstRun(path);
    EmptyProjectStyle();
    EmptyProjectOutputIndent();
    AddModulesTwice(EmptyProject, path, [], r, []);
    RedrawnChangesText(PluginTags, r, path, RegionBody([], "\n", "  "), "\n", "    ", []);
    AddModulesIsRewrite(r, path, []);
  }
}
