# rpkgtests-maven-plugin: the managed `<modules>` block and artifactId replacers

This project models, in Dafny, the two pieces of logic in
`GenerateTestModulesMojo` that go beyond orchestration.

## The managed block

`addModules` keeps a managed region of the parent `pom.xml` in step with
the generated test modules. The region lies between the comment markers
`<!-- START: modules generated by rpkgtests-maven-plugin -->` and
`<!-- END: modules generated by rpkgtests-maven-plugin -->`.

The rewrite works in three steps.

1. The style is detected from the document:
   - The line ending is CRLF when any carriage return is present, and LF otherwise.
   - The indentation unit is group 1 of the first find of
     `<project[^>]*>[\r\n]*([ \t]*)<`, or four spaces when there is none.
2. The markers are made to exist:
   - an existing START marker is used as is;
   - otherwise START/END lines go right after the first `<modules>` and its line breaks;
   - otherwise a whole `<modules>` container goes right before the last `</project>`;
   - failing all three, the run stops with an error naming the file.
3. The region between the end of START and the first END is emptied down to a line break and two indents. One `<module>` line per entry is then inserted, back to front, at the end of START.

Modules:

- `Wrappers`: `Option` and `Result`.
- `Text`: the `java.lang.String` / `StringBuilder` searches the code relies on.
  - `IndexOf` and `LastIndexOf` return `Option` in place of `-1`.
  - `ConsumeEol` models `consumeEol`.
- `IndentPattern`: style detection.
  - `PatternMatch` says declaratively what a match of the indentation regex is.
  - `MatchAt` and `FirstMatch` form the scanner that finds one.
- `ManagedBlock`: the synchronizer itself, in three layers.
  - `LocateRegion` makes the markers exist.
  - `FillRegion` empties the region and inserts the lines.
  - `Rewrite` chains the two for a given style. `AddModules` detects the style and calls `Rewrite`.
  - The strings searched for are a `Tags` value. `PluginTags` holds the plugin's own markers. The theorems are proved for every `Tags` satisfying `ValidTags` and then read off for `PluginTags`.
  - `LocateRegion` returns the position of START in the extended text directly. The code finds it again with `indexOf(MANAGED_MODULES_START)` (`GenerateTestModulesMojo.java`:232, :240). `ManagedBlockProperties.LocatedStartIsFirst` proves the two agree.
- `ManagedBlockProperties`: the outcome and the text produced in each of the three starting states.
- `RegionIdempotence`: a second rewrite with the same style and modules returns its input.
- `AddModulesProperties`: the same results for `addModules` with the detected style.
  - Detection keeps the line ending stable.
  - Idempotence is stated for the whole operation.
- `Replacers`: `Replacers.parse`/`apply` and `Replacer.parse`/`apply`.
  - The configured string is split with Java's `split(",\\s")`, limit 0: trailing empty tokens are dropped, and an input without any separator is one token.
  - Each token must look like `/pattern/replacement/`.
  - The rules are applied left to right.

How the code's behaviour is represented:

- Every exception of `addModules` and of the parsers is an error value. Failures of `replaceAll` itself are not modelled (see "## Left out"):
  - `ProjectCloseNotFound(path)` for the `IllegalStateException` at `GenerateTestModulesMojo.java`:234.
  - `RegionBoundsInvalid` for the `StringIndexOutOfBoundsException` that `StringBuilder.replace` throws at `GenerateTestModulesMojo.java`:245. This happens when END is missing (`delPos == -1`), or when the first END in the document ends before the end of START: `delPos` is searched from the start of the text, not from `insertPos`.
  - One `RuleError` per `IllegalArgumentException` of `Replacer.parse`.
  - `LoneSlash` for the token `/`, where `substring(1, 0)` throws.
  - `InvalidPattern` for a pattern that `Pattern.compile` rejects.
- The javadoc of `testModuleArtifactIdReplacers` (`GenerateTestModulesMojo.java`:100-103) speaks of a "comma or whitespace separated list". The code splits on a comma followed by one whitespace character. The model follows the code:
  - `/a/b/,/b/c/` is one rule whose replacement is `b/,/b/c`.
  - `/a/b/ /b/c/` is one token.

## Model

| member | source | states |
|---|---|---|
| Text.ConsumeEol | src/main/java/org/l2x6/rpkgtests/GenerateTestModulesMojo.java:255-267 | the result is the least position at or after the start that holds neither CR nor LF, or the end of the text; everything skipped is CR or LF |
| IndentPattern.MatchAt | src/main/java/org/l2x6/rpkgtests/GenerateTestModulesMojo.java:64 | what the scanner reports at a position is a match of `<project[^>]*>[\r\n]*([ \t]*)<` starting there |
| IndentPattern.MatchAtComplete | src/main/java/org/l2x6/rpkgtests/GenerateTestModulesMojo.java:64 | every match of the pattern at a position is the one the scanner reports, so the match at a position is unique |
| IndentPattern.FirstMatch | src/main/java/org/l2x6/rpkgtests/GenerateTestModulesMojo.java:221-222 | `Matcher.find()`: the result is a match, no match starts earlier, and none exists when the result is empty |
| IndentPattern.DetectIndent | src/main/java/org/l2x6/rpkgtests/GenerateTestModulesMojo.java:222 | the detected indentation consists of spaces and tabs only |
| IndentPattern.DetectIndentIsLeftmostGroup | src/main/java/org/l2x6/rpkgtests/GenerateTestModulesMojo.java:221-222 | the indentation is group 1 of the leftmost match, and the four-space default when the pattern matches nowhere |
| IndentPattern.DetectIndentDependsOnPrefix | src/main/java/org/l2x6/rpkgtests/GenerateTestModulesMojo.java:221-222 | once the first match lies inside a prefix, texts sharing that prefix detect the same indentation |
| IndentPattern.LineEnding | src/main/java/org/l2x6/rpkgtests/GenerateTestModulesMojo.java:220 | CRLF if and only if the document holds a carriage return, LF if and only if it holds none |
| ManagedBlock.PluginTagsValid | src/main/java/org/l2x6/rpkgtests/GenerateTestModulesMojo.java:65-66 | the plugin's START and END markers are comments that differ early, hold no CR, and `<modules>` opens an element: the side conditions every theorem below assumes |
| ManagedBlock.DetectedStyle | src/main/java/org/l2x6/rpkgtests/GenerateTestModulesMojo.java:220-222 | the detected line ending is CRLF or LF and the detected indentation is blanks only |
| ManagedBlock.InsertBackwardsIsForwardJoin | src/main/java/org/l2x6/rpkgtests/GenerateTestModulesMojo.java:247-250 | inserting the lines of the last, ..., first module at one fixed offset lays them out in list order at that offset, with the text on both sides unchanged |
| ManagedBlock.InsertModuleLines | src/main/java/org/l2x6/rpkgtests/GenerateTestModulesMojo.java:247-250 | the backward loop written imperatively yields the text with the module lines in list order at the offset |
| ManagedBlock.LocateRegion | src/main/java/org/l2x6/rpkgtests/GenerateTestModulesMojo.java:224-242 | locating fails, with the error naming the file, exactly when the document holds no START, no `<modules>` and no `</project>` |
| ManagedBlock.FillRegion | src/main/java/org/l2x6/rpkgtests/GenerateTestModulesMojo.java:243-250 | succeeds exactly when the first END lies at or after the end of START; the result keeps the text through START and from END on, with the module lines, a line break and two indents between; otherwise the range error |
| ManagedBlock.Rewrite | src/main/java/org/l2x6/rpkgtests/GenerateTestModulesMojo.java:224-250 | a failure is one of the two errors, and it is the missing-`</project>` error exactly when none of START, `<modules>`, `</project>` occurs |
| ManagedBlock.AddModules | src/main/java/org/l2x6/rpkgtests/GenerateTestModulesMojo.java:218-253 | the same error classification for `addModules` with the plugin's markers |
| ManagedBlockProperties.RewriteWithMarkers | src/main/java/org/l2x6/rpkgtests/GenerateTestModulesMojo.java:224-225 | with a START present, success exactly when an END lies at or after the end of START; the output replaces the region by the module lines and keeps everything else |
| ManagedBlockProperties.RewriteExistingOutcome | src/main/java/org/l2x6/rpkgtests/GenerateTestModulesMojo.java:236-240 | without START but with `<modules>`, success exactly when no END ends before the marker-line insertion point; a failure is the range error |
| ManagedBlockProperties.RewriteIntoExistingContainer | src/main/java/org/l2x6/rpkgtests/GenerateTestModulesMojo.java:236-250 | in that case the output is the input with the START line, the module lines and the END line inserted behind `<modules>` and its line breaks |
| ManagedBlockProperties.RewriteSynthesizedOutcome | src/main/java/org/l2x6/rpkgtests/GenerateTestModulesMojo.java:226-232 | without START and `<modules>` but with `</project>`, success exactly when no END ends before the last `</project>`; a failure is the range error |
| ManagedBlockProperties.RewriteSynthesizesContainer | src/main/java/org/l2x6/rpkgtests/GenerateTestModulesMojo.java:226-232 | in that case the output is the input with a `<modules>` element holding the markers and the module lines inserted right before the last `</project>` |
| ManagedBlockProperties.LocatedStartIsFirst | src/main/java/org/l2x6/rpkgtests/GenerateTestModulesMojo.java:232 | the START position the locating step hands on is the first occurrence of START in the extended text, which the code finds again with `indexOf` |
| RegionIdempotence.FillRegionIdempotent | src/main/java/org/l2x6/rpkgtests/GenerateTestModulesMojo.java:243-250 | refilling a filled region with the same style and modules gives the same text, and START stays the first START |
| RegionIdempotence.RewriteIdempotent | src/main/java/org/l2x6/rpkgtests/GenerateTestModulesMojo.java:224-250 | from any of the three starting states, a second rewrite with the same style and modules returns the first rewrite's output, provided no module name holds END |
| RegionIdempotence.FillRegionTwice | src/main/java/org/l2x6/rpkgtests/GenerateTestModulesMojo.java:243-250 | after one fill, START is still the first START and the region behind it holds exactly the lines written; a second fill in any style with any list replaces those lines and nothing else |
| RegionIdempotence.RewriteTwice | src/main/java/org/l2x6/rpkgtests/GenerateTestModulesMojo.java:224-250 | from any starting state that succeeds, a later rewrite of the output, in any style and with any list, replaces exactly the region body the first rewrite wrote and keeps all other text |
| RegionIdempotence.RedrawnChangesText | src/main/java/org/l2x6/rpkgtests/GenerateTestModulesMojo.java:243-250 | when the later rewrite's region body differs in length from the body in place, the later rewrite changes the text |
| AddModulesProperties.AddModulesTwice | src/main/java/org/l2x6/rpkgtests/GenerateTestModulesMojo.java:218-253 | running `addModules` on its own output replaces exactly the region body of the first run, with the lines re-rendered in the style detected on the output |
| AddModulesProperties.IndentShiftBreaksIdempotence | src/main/java/org/l2x6/rpkgtests/GenerateTestModulesMojo.java:221-232 | for `<project>`, a line break, two blanks and `</project>`, the first run detects two blanks and inserts a container; its output detects four blanks, and a second run with the same empty list changes the text |
| AddModulesProperties.AddModulesWithMarkers | src/main/java/org/l2x6/rpkgtests/GenerateTestModulesMojo.java:224-225 | `addModules` with a START present: the error exactly when no END lies at or after the end of START, otherwise the region holds the module lines in the detected style |
| AddModulesProperties.AddModulesExistingOutcome | src/main/java/org/l2x6/rpkgtests/GenerateTestModulesMojo.java:236-240 | `addModules` into an existing `<modules>`: success exactly when no END ends before the insertion point |
| AddModulesProperties.AddModulesIntoExistingContainer | src/main/java/org/l2x6/rpkgtests/GenerateTestModulesMojo.java:236-250 | the marker lines and module lines go behind `<modules>` and its line breaks; the entries already there follow the END line unchanged |
| AddModulesProperties.AddModulesSynthesizedOutcome | src/main/java/org/l2x6/rpkgtests/GenerateTestModulesMojo.java:226-232 | `addModules` without START and `<modules>`: success exactly when no END ends before the last `</project>` |
| AddModulesProperties.AddModulesSynthesizesContainer | src/main/java/org/l2x6/rpkgtests/GenerateTestModulesMojo.java:226-232 | a `<modules>` element with the detected indentation goes right before the last `</project>` |
| AddModulesProperties.AddModulesKeepsLineEnding | src/main/java/org/l2x6/rpkgtests/GenerateTestModulesMojo.java:220 | when no module name holds a CR, the output's detected line ending is the input's |
| AddModulesProperties.AddModulesIdempotent | src/main/java/org/l2x6/rpkgtests/GenerateTestModulesMojo.java:218-253 | running `addModules` again on its output with the same modules returns that output, when the output's detected indentation is the input's and no module name holds END or a CR |
| AddModulesProperties.MarkersKeepIndent | src/main/java/org/l2x6/rpkgtests/GenerateTestModulesMojo.java:221-225 | with markers present and the first indentation match before the end of START, the output detects the same indentation |
| AddModulesProperties.AddModulesIdempotentWithMarkers | src/main/java/org/l2x6/rpkgtests/GenerateTestModulesMojo.java:218-253 | with markers present, idempotence under hypotheses about the input alone |
| Replacers.ParseRule | src/main/java/org/l2x6/rpkgtests/GenerateTestModulesMojo.java:392-405 | each of the four rejections happens exactly in its case (no leading `/`, no trailing `/`, the lone `/`, no inner `/`), the pattern error only for a slash-free pattern right behind the leading `/` that does not compile, and a parsed rule has a compiling slash-free pattern and renders back to the token |
| Replacers.ParseRender | src/main/java/org/l2x6/rpkgtests/GenerateTestModulesMojo.java:392-405 | every rule whose pattern compiles and holds no `/` is parsed back from `/pattern/replacement/` |
| Replacers.DropTrailingEmpty | src/main/java/org/l2x6/rpkgtests/GenerateTestModulesMojo.java:371 | the limit-0 trim: a prefix of the pieces, ending in a nonempty piece, with only empty pieces dropped |
| Replacers.Split | src/main/java/org/l2x6/rpkgtests/GenerateTestModulesMojo.java:371 | `split(",\\s")` with limit 0: every token is free of `,\s`; without a match the whole string, even empty, is the only token; with a match, no trailing token is empty |
| Replacers.SplitJoin | src/main/java/org/l2x6/rpkgtests/GenerateTestModulesMojo.java:371 | splitting separator-free pieces joined with `,` plus whitespace gives the single piece back when there is no separator, and otherwise the pieces with their empty tail dropped |
| Replacers.PiecesJoin | src/main/java/org/l2x6/rpkgtests/GenerateTestModulesMojo.java:371 | the pieces between `,\s` separators, joined back with the separators, give the input; no piece holds a separator |
| Replacers.JoinPieces | src/main/java/org/l2x6/rpkgtests/GenerateTestModulesMojo.java:371 | conversely, separator-free pieces joined with `,` plus whitespace are split back into the same pieces |
| Replacers.ParseRules | src/main/java/org/l2x6/rpkgtests/GenerateTestModulesMojo.java:371-373 | the chain parses exactly when every token does, and then holds each token's rule in order |
| Replacers.ParseRulesFirstError | src/main/java/org/l2x6/rpkgtests/GenerateTestModulesMojo.java:371-373 | a failing chain reports the error of the first token that fails |
| Replacers.ParseChain | src/main/java/org/l2x6/rpkgtests/GenerateTestModulesMojo.java:367-375 | no configuration is the empty chain; otherwise the chain parses exactly when every token of the split does, one rule per token in order |
| Replacers.ParseRenderChain | src/main/java/org/l2x6/rpkgtests/GenerateTestModulesMojo.java:367-375 | a nonempty chain of compilable rules whose tokens hold no `,\s` is parsed back from its `, `-joined rendering |
| Replacers.ApplyChainAppend | src/main/java/org/l2x6/rpkgtests/GenerateTestModulesMojo.java:382-387 | applying a chain in two parts applies the second part to the output of the first |
| Replacers.Apply | src/main/java/org/l2x6/rpkgtests/GenerateTestModulesMojo.java:382-387 | the loop feeds the input through the rules in list order, each `replaceAll` taking the previous output |
| Replacers.CommaWithoutSpaceIsOneToken | src/main/java/org/l2x6/rpkgtests/GenerateTestModulesMojo.java:371 | `/a/b/,/b/c/` is not split: it is one rule with pattern `a` and replacement `b/,/b/c` |
| Replacers.EmptyConfigurationFails | src/main/java/org/l2x6/rpkgtests/GenerateTestModulesMojo.java:367-375 | an empty configuration is the token `""` and fails the leading-slash check; a missing one is the empty chain |
| Replacers.LoneSeparatorIsEmptyChain | src/main/java/org/l2x6/rpkgtests/GenerateTestModulesMojo.java:371 | `", "` splits into two empty pieces, both dropped: the empty chain |

### Hypotheses of the idempotence theorems

- No module name may contain the END marker. Otherwise the second run would stop the region early, at the END inside the name.
- No module name may contain a carriage return. Otherwise an LF document would turn into a CRLF one on the second run.
- The output must detect the same indentation as the input. Inserting a container can change what the first match of the pattern captures.
  - `IndentShiftBreaksIdempotence` shows this on a concrete document. `<project>`, a line break, two blanks and `</project>` detects two blanks, because the pattern stops at `</project>`. The container goes before `</project>`, so the output detects the four blanks in front of `<modules>`. The second run then re-indents the region body, and the text changes.
  - Idempotence does not hold without this condition: the code changes such documents on a second run, and the model follows the code.
  - `MarkersKeepIndent` discharges this hypothesis when markers are present and the first match lies before the end of START.
  - `AddModulesIdempotentWithMarkers` is the theorem with the hypothesis discharged.
- Without any of the hypotheses, `AddModulesTwice` still says what a second run does: it redraws the region body in the style detected on the output and leaves all other text alone.

## Left out

- `execute()` and everything around `addModules`: reading test jars, creating module directories, the FreeMarker templates, `TemplateParams`, Maven parameters and logging. `execute()` also reads and writes the file, with its charset; the model works on the text.
- Java's regular-expression engine beyond the indentation pattern:
  - `Pattern.compile` is the parameter `compiles` of the replacer parser.
  - `Matcher.replaceAll` is the parameter `sub` of the chain application.
  - The model therefore proves nothing about which patterns compile or what one replacement does.
  - `sub` is total, so `Apply` never fails. `replaceAll` at `GenerateTestModulesMojo.java`:416 can throw: `IndexOutOfBoundsException` for a replacement naming a missing group (`$2` with one group), and `IllegalArgumentException` for a replacement ending in a lone `\`. Those failure paths are not modelled.
- `\s` in the split is Java's default ASCII class `[ \t\n\x0B\f\r]`. No Unicode-character-class flag is modelled.
- Java strings are sequences of UTF-16 code units; the model uses Dafny `char` sequences, whose elements are Unicode scalar values. For text outside the Basic Multilingual Plane the positions differ: every `indexOf` or `insert` offset after a supplementary character is one smaller in the model than in Java, and a lone surrogate cannot be represented at all. The markers and tags searched for are ASCII, so the text produced is the same; only the positions are counted differently.
- `null` module names and `null` list elements are not modelled. A `null` replacer configuration is `None`.
- AddModulesIdempotent: states idempotence only under three hypotheses. These are: the output detects the input's indentation, and no module name holds END or a carriage return. Without them the unconditional promise fails; `IndentShiftBreaksIdempotence` gives a document where it does.
- AddModulesIdempotentWithMarkers: needs markers in the input and the first indentation match before the end of START. The model proves no idempotence for a first run that has to insert the markers, except through `AddModulesIdempotent`.
