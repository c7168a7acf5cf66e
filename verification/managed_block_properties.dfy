/**
 * For each of the three starting states of `Rewrite` (START present, only
 * `<modules>` present, only `</project>` present): when the rewrite fails
 * and the exact text it produces, for every valid `Tags` and every style.
 * Bare line numbers below are lines of `GenerateTestModulesMojo.java`.
 */
module ManagedBlockProperties {
  import opened Wrappers
  import opened Text
  import opened IndentPattern
  import opened ManagedBlock

  /** The document holds an occurrence of `pat` lying wholly before position `n`. */
  predicate EndsBefore(doc: string, pat: string, n: nat)
  {
    IndexOf(doc, pat).Some? && IndexOf(doc, pat).value + |pat| <= n
  }

  /** The rewrite is `FillRegion` applied to whatever `LocateRegion` produced, and it fails when locating does. */
  lemma RewriteSteps(tg: Tags, doc: string, path: string, eol: string, indent: string, modules: seq<string>)
    ensures var l := LocateRegion(tg, doc, path, eol, indent);
      && (l.Success? ==> Rewrite(tg, doc, path, eol, indent, modules) == FillRegion(tg, l.value.0, l.value.1, eol, indent, modules))
      && (l.Failure? ==> Rewrite(tg, doc, path, eol, indent, modules).Failure?)
  {
  }

  /** The rewrite of a document whose region was located as `(t, s)`. */
  lemma RewriteLocated(tg: Tags, doc: string, path: string, eol: string, indent: string, modules: seq<string>, t: string, s: nat)
    requires LocateRegion(tg, doc, path, eol, indent) == Success((t, s))
    ensures Rewrite(tg, doc, path, eol, indent, modules) == FillRegion(tg, t, s, eol, indent, modules)
  {
    RewriteSteps(tg, doc, path, eol, indent, modules);
  }

  /** The marker lines as the START line, the line break and indents before END, and the END line. */
  lemma MarkerLinesPieces(tg: Tags, eol: string, indent: string)
    ensures MarkerLines(tg, eol, indent)
      == (indent + indent + tg.start) + ((eol + indent + indent) + (tg.end + eol))
  {
    var h := indent + indent + tg.start;
    var m := eol + indent + indent;
    MarkerLinesShape(tg, eol, indent);
    Assoc(m, tg.end, eol);
    Assoc(h, m + tg.end, eol);
    Assoc(h, m, tg.end);
    Assoc(h, eol + indent, indent);
    Assoc(h, eol, indent);
  }

  /** The container as everything up to START, the line break and indents before END, and the rest. */
  lemma ContainerPieces(tg: Tags, eol: string, indent: string)
    ensures Container(tg, eol, indent)
      == (indent + tg.modulesOpen + eol + (indent + indent + tg.start))
         + ((eol + indent + indent) + (tg.end + eol + (indent + tg.modulesClose + eol)))
  {
    var p := indent + tg.modulesOpen + eol;
    var h := indent + indent + tg.start;
    var m := eol + indent + indent;
    var r := tg.end + eol;
    var tl := indent + tg.modulesClose + eol;
    var ml := MarkerLines(tg, eol, indent);
    ContainerShape(tg, eol, indent);
    Assoc(p + ml, indent + tg.modulesClose, eol);
    Assoc(p + ml, indent, tg.modulesClose);
    MarkerLinesPieces(tg, eol, indent);
    Assoc(p, h, m + r);
    Assoc(p + h, m + r, tl);
    Assoc(m, r, tl);
  }

  /**
   * Inserting `block` at `at` in a document whose first END marker does not
   * end before `at`: the first END of the result is the first one inside
   * `block`.
   */
  lemma EndAfterInsertion(tg: Tags, doc: string, at: nat, block: string, b0: nat, off: nat)
    requires TagShaped(tg.end) && at <= |doc| && !EndsBefore(doc, tg.end, at)
    requires LeadsToTag(block, b0) && FirstAt(block, tg.end, off)
    ensures IndexOf(doc[..at] + block + doc[at..], tg.end) == Some(at + off)
  {
    AbsentBeforeFirst(doc, tg.end, at);
    TagAfterInsertion(doc, at, block, tg.end, b0, off);
  }

  /** `FillRegion` once the places of START and END and the text around the region are known. */
  lemma FillRegionText(tg: Tags, t: string, s: nat, d: nat, eol: string, indent: string, ms: seq<string>,
                       pre: string, post: string)
    requires IndexOf(t, tg.end) == Some(d) && s + |tg.start| <= d
    requires t[..s + |tg.start|] == pre && t[d..] == post
    ensures FillRegion(tg, t, s, eol, indent, ms) == Success(pre + RegionBody(ms, eol, indent) + post)
  {
  }

  /**
   * `FillRegion` on a document with `block` inserted at `at`, where START
   * ends at `p + |START|` inside the block and the first END of the whole
   * text is at `d` inside the block: the result keeps the block up to the
   * end of START and from END on, with the region body between.
   */
  lemma FillInsertedBlock(tg: Tags, doc: string, at: nat, block: string, p: nat, d: nat,
                          eol: string, indent: string, ms: seq<string>)
    requires at <= |doc| && p + |tg.start| <= d <= |block|
    requires IndexOf(doc[..at] + block + doc[at..], tg.end) == Some(at + d)
    ensures FillRegion(tg, doc[..at] + block + doc[at..], at + p, eol, indent, ms)
      == Success(doc[..at] + block[..p + |tg.start|] + RegionBody(ms, eol, indent) + (block[d..] + doc[at..]))
  {
    var t := doc[..at] + block + doc[at..];
    assert t[..at + p + |tg.start|] == doc[..at] + block[..p + |tg.start|];
    assert t[at + d..] == block[d..] + doc[at..];
    FillRegionText(tg, t, at + p, at + d, eol, indent, ms,
                   doc[..at] + block[..p + |tg.start|], block[d..] + doc[at..]);
  }

  // ----- markers present -----

  /**
   * With a START marker present (:224-225), the region between the end of
   * the first START and the first END is replaced by the module lines; it
   * fails exactly when there is no END from the end of START on.
   */
  lemma RewriteWithMarkers(tg: Tags, doc: string, path: string, eol: string, indent: string, modules: seq<string>)
    requires IndexOf(doc, tg.start).Some?
    ensures var ip := IndexOf(doc, tg.start).value + |tg.start|;
      var r := Rewrite(tg, doc, path, eol, indent, modules);
      && (r.Success? <==> IndexOf(doc, tg.end).Some? && IndexOf(doc, tg.end).value >= ip)
      && (r.Failure? ==> r.error == RegionBoundsInvalid)
      && (r.Success? ==> r.value == doc[..ip] + RegionBody(modules, eol, indent) + doc[IndexOf(doc, tg.end).value..])
  {
  }

  /** With START present the rewrite keeps the text through the first START unchanged. */
  lemma RewriteKeepsThroughStart(tg: Tags, doc: string, path: string, eol: string, indent: string, modules: seq<string>, r: string)
    requires IndexOf(doc, tg.start).Some? && Rewrite(tg, doc, path, eol, indent, modules) == Success(r)
    ensures var ip := IndexOf(doc, tg.start).value + |tg.start|;
      ip <= |r| && r[..ip] == doc[..ip]
  {
    var ip := IndexOf(doc, tg.start).value + |tg.start|;
    RewriteWithMarkers(tg, doc, path, eol, indent, modules);
    var u := RegionBody(modules, eol, indent);
    var t := doc[IndexOf(doc, tg.end).value..];
    assert r == doc[..ip] + u + t;
    assert (doc[..ip] + u + t)[..ip] == doc[..ip];
  }

  // ----- existing container -----

  /** Where `addModules` puts the marker lines when `<modules>` exists: behind it and the line breaks after it. */
  function MarkerLinesAt(tg: Tags, doc: string): (at: nat)
    requires IndexOf(doc, tg.modulesOpen).Some?
    ensures IndexOf(doc, tg.modulesOpen).value + |tg.modulesOpen| <= at <= |doc|
  {
    ConsumeEol(doc, IndexOf(doc, tg.modulesOpen).value + |tg.modulesOpen|)
  }

  /** Without an END marker before `at`, the first END is the one of the marker lines inserted there. */
  lemma EndAfterMarkerLines(tg: Tags, doc: string, at: nat, eol: string, indent: string)
    requires Style(eol, indent) && ValidTags(tg) && at <= |doc| && !EndsBefore(doc, tg.end, at)
    ensures IndexOf(doc[..at] + MarkerLines(tg, eol, indent) + doc[at..], tg.end) == Some(at + EndOffset(tg, eol, indent))
  {
    MarkerLinesLayout(tg, eol, indent);
    EndInMarkerLines(tg, doc, at, eol, indent);
  }

  lemma EndInMarkerLines(tg: Tags, doc: string, at: nat, eol: string, indent: string)
    requires TagShaped(tg.end) && at <= |doc| && !EndsBefore(doc, tg.end, at)
    requires LeadsToTag(MarkerLines(tg, eol, indent), StartOffset(indent))
    requires FirstAt(MarkerLines(tg, eol, indent), tg.end, EndOffset(tg, eol, indent))
    ensures IndexOf(doc[..at] + MarkerLines(tg, eol, indent) + doc[at..], tg.end) == Some(at + EndOffset(tg, eol, indent))
  {
    EndAfterInsertion(tg, doc, at, MarkerLines(tg, eol, indent), StartOffset(indent), EndOffset(tg, eol, indent));
  }

  /** The marker lines cut at the end of START and at the start of END. */
  lemma MarkerLinesCut(tg: Tags, eol: string, indent: string)
    ensures |MarkerLines(tg, eol, indent)| == EndOffset(tg, eol, indent) + |tg.end| + |eol|
    ensures MarkerLines(tg, eol, indent)[..StartOffset(indent) + |tg.start|] == indent + indent + tg.start
    ensures MarkerLines(tg, eol, indent)[EndOffset(tg, eol, indent)..] == tg.end + eol
  {
    MarkerLinesPieces(tg, eol, indent);
    ThreePieces(indent + indent + tg.start, eol + indent + indent, tg.end + eol);
  }

  lemma RewriteExistingSteps(tg: Tags, doc: string, path: string, eol: string, indent: string, modules: seq<string>)
    requires Absent(doc, tg.start) && IndexOf(doc, tg.modulesOpen).Some?
    ensures var at := MarkerLinesAt(tg, doc);
      Rewrite(tg, doc, path, eol, indent, modules)
        == FillRegion(tg, doc[..at] + MarkerLines(tg, eol, indent) + doc[at..], at + StartOffset(indent), eol, indent, modules)
  {
    var at := MarkerLinesAt(tg, doc);
    LocateExisting(tg, doc, path, eol, indent);
    RewriteLocated(tg, doc, path, eol, indent, modules, doc[..at] + MarkerLines(tg, eol, indent) + doc[at..], at + StartOffset(indent));
  }

  /** Without START, the first `<modules>` decides where the marker lines go. */
  lemma LocateExisting(tg: Tags, doc: string, path: string, eol: string, indent: string)
    requires Absent(doc, tg.start) && IndexOf(doc, tg.modulesOpen).Some?
    ensures var at := MarkerLinesAt(tg, doc);
      LocateRegion(tg, doc, path, eol, indent) == Success((doc[..at] + MarkerLines(tg, eol, indent) + doc[at..], at + StartOffset(indent)))
  {
  }

  lemma FillMarkerLinesSucceeds(tg: Tags, doc: string, at: nat, eol: string, indent: string, modules: seq<string>)
    requires Style(eol, indent) && ValidTags(tg) && at <= |doc|
    ensures FillRegion(tg, doc[..at] + MarkerLines(tg, eol, indent) + doc[at..], at + StartOffset(indent), eol, indent, modules).Success?
      <==> !EndsBefore(doc, tg.end, at)
  {
    if EndsBefore(doc, tg.end, at) {
      EarlierTagKept(doc, at, MarkerLines(tg, eol, indent), tg.end);
    } else {
      EndAfterMarkerLines(tg, doc, at, eol, indent);
    }
  }

  lemma FillMarkerLinesText(tg: Tags, doc: string, at: nat, eol: string, indent: string, modules: seq<string>)
    requires at <= |doc|
    requires IndexOf(doc[..at] + MarkerLines(tg, eol, indent) + doc[at..], tg.end) == Some(at + EndOffset(tg, eol, indent))
    ensures FillRegion(tg, doc[..at] + MarkerLines(tg, eol, indent) + doc[at..], at + StartOffset(indent), eol, indent, modules)
      == Success(doc[..at] + (indent + indent + tg.start) + RegionBody(modules, eol, indent) + (tg.end + eol + doc[at..]))
  {
    MarkerLinesCut(tg, eol, indent);
    FillInsertedBlock(tg, doc, at, MarkerLines(tg, eol, indent), StartOffset(indent), EndOffset(tg, eol, indent), eol, indent, modules);
  }

  /**
   * No START but a `<modules>` element (:236-240): the rewrite fails
   * exactly when an END marker ends before the spot behind `<modules>` and
   * its line breaks, and then with the range error.
   */
  lemma RewriteExistingOutcome(tg: Tags, doc: string, path: string, eol: string, indent: string, modules: seq<string>)
    requires Style(eol, indent) && ValidTags(tg)
    requires Absent(doc, tg.start) && IndexOf(doc, tg.modulesOpen).Some?
    ensures var r := Rewrite(tg, doc, path, eol, indent, modules);
      && (r.Success? <==> !EndsBefore(doc, tg.end, MarkerLinesAt(tg, doc)))
      && (r.Failure? ==> r.error == RegionBoundsInvalid)
  {
    RewriteExistingSteps(tg, doc, path, eol, indent, modules);
    FillMarkerLinesSucceeds(tg, doc, MarkerLinesAt(tg, doc), eol, indent, modules);
  }

  /**
   * Otherwise the START and END lines go right behind `<modules>` and its
   * line breaks, with the module lines between them, and the document is
   * kept on both sides.
   */
  lemma RewriteIntoExistingContainer(tg: Tags, doc: string, path: string, eol: string, indent: string, modules: seq<string>)
    requires Style(eol, indent) && ValidTags(tg)
    requires Absent(doc, tg.start) && IndexOf(doc, tg.modulesOpen).Some?
    requires !EndsBefore(doc, tg.end, MarkerLinesAt(tg, doc))
    ensures var at := MarkerLinesAt(tg, doc);
      Rewrite(tg, doc, path, eol, indent, modules)
        == Success(doc[..at] + (indent + indent + tg.start) + RegionBody(modules, eol, indent) + (tg.end + eol + doc[at..]))
  {
    EndAfterMarkerLines(tg, doc, MarkerLinesAt(tg, doc), eol, indent);
    RewriteExistingText(tg, doc, path, eol, indent, modules);
  }

  lemma RewriteExistingText(tg: Tags, doc: string, path: string, eol: string, indent: string, modules: seq<string>)
    requires Absent(doc, tg.start) && IndexOf(doc, tg.modulesOpen).Some?
    requires var at := MarkerLinesAt(tg, doc);
      IndexOf(doc[..at] + MarkerLines(tg, eol, indent) + doc[at..], tg.end) == Some(at + EndOffset(tg, eol, indent))
    ensures var at := MarkerLinesAt(tg, doc);
      Rewrite(tg, doc, path, eol, indent, modules)
        == Success(doc[..at] + (indent + indent + tg.start) + RegionBody(modules, eol, indent) + (tg.end + eol + doc[at..]))
  {
    RewriteExistingSteps(tg, doc, path, eol, indent, modules);
    FillMarkerLinesText(tg, doc, MarkerLinesAt(tg, doc), eol, indent, modules);
  }

  // ----- synthesized container -----

  /** Without an END marker before `e`, the first END is the one of the container inserted there. */
  lemma EndAfterContainer(tg: Tags, doc: string, e: nat, eol: string, indent: string)
    requires Style(eol, indent) && ValidTags(tg) && e <= |doc| && !EndsBefore(doc, tg.end, e)
    ensures IndexOf(doc[..e] + Container(tg, eol, indent) + doc[e..], tg.end)
      == Some(e + ContainerEnd(tg, eol, indent))
  {
    ContainerLeads(tg, eol, indent);
    ContainerEndLayout(tg, eol, indent);
    EndInContainer(tg, doc, e, eol, indent);
  }

  lemma EndInContainer(tg: Tags, doc: string, e: nat, eol: string, indent: string)
    requires TagShaped(tg.end) && e <= |doc| && !EndsBefore(doc, tg.end, e)
    requires LeadsToTag(Container(tg, eol, indent), |indent|)
    requires FirstAt(Container(tg, eol, indent), tg.end, ContainerEnd(tg, eol, indent))
    ensures IndexOf(doc[..e] + Container(tg, eol, indent) + doc[e..], tg.end)
      == Some(e + ContainerEnd(tg, eol, indent))
  {
    EndAfterInsertion(tg, doc, e, Container(tg, eol, indent), |indent|,
                      ContainerEnd(tg, eol, indent));
  }

  /** The container cut at the end of START and at the start of END. */
  lemma ContainerCut(tg: Tags, eol: string, indent: string)
    ensures |Container(tg, eol, indent)| == ContainerEnd(tg, eol, indent) + |tg.end| + |eol| + |indent| + |tg.modulesClose| + |eol|
    ensures Container(tg, eol, indent)[..ContainerStart(tg, eol, indent) + |tg.start|]
      == indent + tg.modulesOpen + eol + (indent + indent + tg.start)
    ensures Container(tg, eol, indent)[ContainerEnd(tg, eol, indent)..]
      == tg.end + eol + (indent + tg.modulesClose + eol)
  {
    ContainerPieces(tg, eol, indent);
    ThreePieces(indent + tg.modulesOpen + eol + (indent + indent + tg.start), eol + indent + indent,
                tg.end + eol + (indent + tg.modulesClose + eol));
  }

  /** Where `addModules` puts a synthesized container: right before the last `</project>`. */
  function ContainerAt(tg: Tags, doc: string): (e: nat)
    requires LastIndexOf(doc, tg.projectClose).Some?
    ensures e + |tg.projectClose| <= |doc|
  {
    LastIndexOf(doc, tg.projectClose).value
  }

  lemma RewriteSynthesizedSteps(tg: Tags, doc: string, path: string, eol: string, indent: string, modules: seq<string>)
    requires Absent(doc, tg.start) && Absent(doc, tg.modulesOpen) && LastIndexOf(doc, tg.projectClose).Some?
    ensures var e := ContainerAt(tg, doc);
      Rewrite(tg, doc, path, eol, indent, modules)
        == FillRegion(tg, doc[..e] + Container(tg, eol, indent) + doc[e..], e + ContainerStart(tg, eol, indent), eol, indent, modules)
  {
    LocateSynthesized(tg, doc, path, eol, indent);
    RewriteSteps(tg, doc, path, eol, indent, modules);
  }

  /** Without START and `<modules>`, the last `</project>` decides where the container goes. */
  lemma LocateSynthesized(tg: Tags, doc: string, path: string, eol: string, indent: string)
    requires Absent(doc, tg.start) && Absent(doc, tg.modulesOpen) && LastIndexOf(doc, tg.projectClose).Some?
    ensures var e := ContainerAt(tg, doc);
      LocateRegion(tg, doc, path, eol, indent) == Success((doc[..e] + Container(tg, eol, indent) + doc[e..], e + ContainerStart(tg, eol, indent)))
  {
  }

  lemma FillContainerSucceeds(tg: Tags, doc: string, e: nat, eol: string, indent: string, modules: seq<string>)
    requires Style(eol, indent) && ValidTags(tg) && e <= |doc|
    ensures FillRegion(tg, doc[..e] + Container(tg, eol, indent) + doc[e..], e + ContainerStart(tg, eol, indent), eol, indent, modules).Success?
      <==> !EndsBefore(doc, tg.end, e)
  {
    if EndsBefore(doc, tg.end, e) {
      EarlierTagKept(doc, e, Container(tg, eol, indent), tg.end);
    } else {
      EndAfterContainer(tg, doc, e, eol, indent);
    }
  }

  lemma FillContainerText(tg: Tags, doc: string, e: nat, eol: string, indent: string, modules: seq<string>)
    requires e <= |doc|
    requires IndexOf(doc[..e] + Container(tg, eol, indent) + doc[e..], tg.end) == Some(e + ContainerEnd(tg, eol, indent))
    ensures FillRegion(tg, doc[..e] + Container(tg, eol, indent) + doc[e..], e + ContainerStart(tg, eol, indent), eol, indent, modules)
      == Success(doc[..e] + (indent + tg.modulesOpen + eol + (indent + indent + tg.start))
                 + RegionBody(modules, eol, indent)
                 + (tg.end + eol + (indent + tg.modulesClose + eol) + doc[e..]))
  {
    ContainerCut(tg, eol, indent);
    FillInsertedBlock(tg, doc, e, Container(tg, eol, indent), ContainerStart(tg, eol, indent), ContainerEnd(tg, eol, indent), eol, indent, modules);
  }

  /**
   * Neither START nor `<modules>` (:226-232): the rewrite fails exactly
   * when an END marker ends before the last `</project>`, and then with
   * the range error.
   */
  lemma RewriteSynthesizedOutcome(tg: Tags, doc: string, path: string, eol: string, indent: string, modules: seq<string>)
    requires Style(eol, indent) && ValidTags(tg)
    requires Absent(doc, tg.start) && Absent(doc, tg.modulesOpen) && LastIndexOf(doc, tg.projectClose).Some?
    ensures var r := Rewrite(tg, doc, path, eol, indent, modules);
      && (r.Success? <==> !EndsBefore(doc, tg.end, ContainerAt(tg, doc)))
      && (r.Failure? ==> r.error == RegionBoundsInvalid)
  {
    RewriteSynthesizedSteps(tg, doc, path, eol, indent, modules);
    FillContainerSucceeds(tg, doc, ContainerAt(tg, doc), eol, indent, modules);
  }

  /**
   * Otherwise a whole `<modules>` element holding the START and END lines
   * goes right before the last `</project>`, with the module lines between
   * the markers, and the document is kept on both sides.
   */
  lemma RewriteSynthesizesContainer(tg: Tags, doc: string, path: string, eol: string, indent: string, modules: seq<string>)
    requires Style(eol, indent) && ValidTags(tg)
    requires Absent(doc, tg.start) && Absent(doc, tg.modulesOpen) && LastIndexOf(doc, tg.projectClose).Some?
    requires !EndsBefore(doc, tg.end, ContainerAt(tg, doc))
    ensures var e := ContainerAt(tg, doc);
      Rewrite(tg, doc, path, eol, indent, modules)
        == Success(doc[..e] + (indent + tg.modulesOpen + eol + (indent + indent + tg.start))
                   + RegionBody(modules, eol, indent)
                   + (tg.end + eol + (indent + tg.modulesClose + eol) + doc[e..]))
  {
    EndAfterContainer(tg, doc, ContainerAt(tg, doc), eol, indent);
    RewriteSynthesizedText(tg, doc, path, eol, indent, modules);
  }

  lemma RewriteSynthesizedText(tg: Tags, doc: string, path: string, eol: string, indent: string, modules: seq<string>)
    requires Absent(doc, tg.start) && Absent(doc, tg.modulesOpen) && LastIndexOf(doc, tg.projectClose).Some?
    requires var e := ContainerAt(tg, doc);
      IndexOf(doc[..e] + Container(tg, eol, indent) + doc[e..], tg.end) == Some(e + ContainerEnd(tg, eol, indent))
    ensures var e := ContainerAt(tg, doc);
      Rewrite(tg, doc, path, eol, indent, modules)
        == Success(doc[..e] + (indent + tg.modulesOpen + eol + (indent + indent + tg.start))
                   + RegionBody(modules, eol, indent)
                   + (tg.end + eol + (indent + tg.modulesClose + eol) + doc[e..]))
  {
    RewriteSynthesizedSteps(tg, doc, path, eol, indent, modules);
    FillContainerText(tg, doc, ContainerAt(tg, doc), eol, indent, modules);
  }

  // ----- where the region starts -----

  /**
   * The position `LocateRegion` hands on is the one `addModules` finds by
   * searching the extended text for START again (:232, :240): the first
   * START of the text.
   */
  lemma LocatedStartIsFirst(tg: Tags, doc: string, path: string, eol: string, indent: string)
    requires Style(eol, indent) && ValidTags(tg)
    ensures var l := LocateRegion(tg, doc, path, eol, indent);
      l.Success? ==> IndexOf(l.value.0, tg.start) == Some(l.value.1)
  {
    if IndexOf(doc, tg.start).None? {
      if IndexOf(doc, tg.modulesOpen).Some? {
        LocatedExistingStart(tg, doc, path, eol, indent);
      } else if LastIndexOf(doc, tg.projectClose).Some? {
        LocatedSynthesizedStart(tg, doc, path, eol, indent);
      }
    }
  }

  lemma LocatedExistingStart(tg: Tags, doc: string, path: string, eol: string, indent: string)
    requires Style(eol, indent) && ValidTags(tg)
    requires Absent(doc, tg.start) && IndexOf(doc, tg.modulesOpen).Some?
    ensures var l := LocateRegion(tg, doc, path, eol, indent);
      l.Success? && IndexOf(l.value.0, tg.start) == Some(l.value.1)
  {
    var at := MarkerLinesAt(tg, doc);
    LocateExisting(tg, doc, path, eol, indent);
    assert LocateRegion(tg, doc, path, eol, indent).value == (doc[..at] + MarkerLines(tg, eol, indent) + doc[at..], at + StartOffset(indent));
    MarkerLinesStartFound(tg, doc, at, eol, indent);
  }

  lemma LocatedSynthesizedStart(tg: Tags, doc: string, path: string, eol: string, indent: string)
    requires Style(eol, indent) && ValidTags(tg)
    requires Absent(doc, tg.start) && Absent(doc, tg.modulesOpen) && LastIndexOf(doc, tg.projectClose).Some?
    ensures var l := LocateRegion(tg, doc, path, eol, indent);
      l.Success? && IndexOf(l.value.0, tg.start) == Some(l.value.1)
  {
    var e := ContainerAt(tg, doc);
    LocateSynthesized(tg, doc, path, eol, indent);
    assert LocateRegion(tg, doc, path, eol, indent).value == (doc[..e] + Container(tg, eol, indent) + doc[e..], e + ContainerStart(tg, eol, indent));
    ContainerStartFound(tg, doc, e, eol, indent);
  }
}
