# Sentinel-marker patch engine, in Dafny

This project models the patch engine that `patch/exec.js` and
`header-auth/patch-runner.js` share. The engine edits one text file with an
ordered list of operations `{label, remove?, patch}`. It wraps each patch in
a begin/end comment pair `// <sentinel> begin: <label>` …
`// <sentinel> end: <label>` and tries three paths per operation, in this
order:

1. **Anchor.** If `remove` is given and the text contains it, the block
   replaces the first occurrence.
2. **Marker.** If the marker regex finds an earlier block, the fresh block
   replaces it. The operation reports "already up-to-date" when the text
   comes out identical, which, as written, never happens (see Findings).
3. **Append.** If `remove` was given, the operation throws. Otherwise the
   block goes after the trimmed text and a newline.

Operations without a label or patch content throw. A missing file is
skipped. The file is written once, at the end, and only if some operation
changed it. The two source files differ in one respect: the sentinel.

Because the anchor path comes first, a rerun adds no block only while the
anchor stays away. `Engine.RerunUpdatesInPlace` shows that a rerun whose
anchor no longer occurs overwrites the leftmost marker span, at or before
the block the first run left. `Engine.RerunCanDuplicate` shows the other
side: an anchor occurring after the block, for instance inside later text or
a second copy of the legacy fragment, gets a second copy of the block.

- In `patch/exec.js` it is `PATCH_NAME`, trimmed, with every character
  outside `[A-Za-z0-9_-]` replaced by `-`. It defaults to `patch`.
- In `header-auth/patch-runner.js` it is the fixed word `header-auth`.

The modules follow the program's structure:

- `Results` holds `Option` and `Result`.
- `Ops` holds the operation, the errors thrown and the console lines, the
  last two as events.
- `Text` holds JavaScript's `trim`, `trimEnd`, `indexOf` and `includes` on
  strings.
- `RegexLiteral` holds the escaping done by `buildMarkerPattern` and just
  enough regex syntax to read the pattern back.
- `Markers` holds the marker format, `buildMarkerPattern`, `wrapWithMarker`,
  the marker search and `String.prototype.replace` with its `$` patterns.
- `Engine` holds one loop step, the loop itself and `patchSource`.
- `ExecPatch` holds the sentinel of `patch/exec.js` and its `patchSource`.
- `HeaderAuthRunner` holds the fixed prefix and its `patchSource`.
- `Findings` holds two places where the code falls short of its design,
  together with the repair.

The marker regex is `// P begin: L[\s\S]*?// P end: L`, with `P` and `L`
escaped. `Markers.BuildMarkerPattern` shows that it reads back as a lazy
span between the two literal marker strings. `Markers.FindSpan` shows that
the first begin marker, followed by the first end marker after it, is
exactly the leftmost-shortest span such a regex reports. That makes the
search literal string search.

The step is parameterised by `Matching`:

- `AsWritten` searches for the marker text, as the regex does.
- `WholeLines` searches for the marker lines including their newline. This
  is the corrected search described under Findings.

Both source files are modelled with `AsWritten`. The generic
`Engine.PatchSource` takes the step as a parameter, and
`Engine.RerunNeverAppends` holds for both kinds of search.

Strings are sequences of Unicode code points, where JavaScript uses UTF-16
code units. This matters only in the sentinel sanitising, which the model
spells out.

## Model

| member | source | states |
|---|---|---|
| Text.TrimEndSpec | patch/exec.js:67 | `trimEnd` keeps a prefix of the text: what it drops is whitespace, and what it keeps does not end in whitespace |
| Text.TrimStartSpec | patch/exec.js:27 | `trimStart` keeps a suffix of the text: what it drops is whitespace, and what it keeps does not start with whitespace |
| Text.TrimSpec | patch/exec.js:27 | `trim` gives an empty string exactly for all-whitespace text; otherwise the result starts and ends with non-whitespace characters of the text |
| Text.TrimIsInfix | patch/exec.js:27 | The trimmed body is a contiguous piece of the patch with only whitespace on either side |
| Text.IndexFrom | patch/exec.js:44-45 | A search from a position finds the first occurrence at or after it, or reports that there is none |
| Text.IndexOf | patch/exec.js:44-45 | `indexOf` finds something exactly when `includes` holds, and then it finds the first occurrence, the one `replace` with a string pattern rewrites |
| RegexLiteral.Escape | patch/exec.js:19-20 | Escaping at most doubles the length and leaves text without syntax characters unchanged |
| RegexLiteral.EscapeReadsBack | patch/exec.js:19-21 | An escaped string is read by the regex as the literal string it came from |
| RegexLiteral.EscapedSpanIsLiteral | patch/exec.js:21 | `escape(a)[\s\S]*?escape(b)` is a lazy span between the literal strings `a` and `b`, whatever characters they hold |
| Markers.BuildMarkerPattern | patch/exec.js:18-22 | The marker pattern looks for exactly the begin marker and the end marker of the label, verbatim |
| Markers.WrapWithMarker | patch/exec.js:24-28 | A missing label throws first, then missing patch content; otherwise the result is the begin line, the trimmed patch and the end line, each followed by a newline |
| Markers.FindSpan | patch/exec.js:51-52 | The literal search finds exactly the leftmost-shortest span of the marker regex, and finds nothing exactly when the regex does not match |
| Markers.Substitution | patch/exec.js:52 | The `$` expansion of `replace` leaves a replacement without `$` as it is |
| Markers.Replace | patch/exec.js:52 | `replace` keeps the text before and after the match, and puts a replacement without `$` in verbatim |
| Markers.BlockIsRediscovered | patch/exec.js:21-27 | Wherever a block sits in a text, the marker search for its label finds a span, with either kind of search |
| Engine.Step | patch/exec.js:37-39 | A missing label throws before a missing patch is checked |
| Engine.AnchorPath | patch/exec.js:44-49 | A valid operation whose anchor occurs replaces the first occurrence with its block and logs "inserted", whatever markers the text holds |
| Engine.MarkerPath | patch/exec.js:51-61 | Without an anchor hit, the leftmost-shortest marker span gives way to the block. The step logs "already up-to-date" with the text unchanged when the result is identical, and "updated" with the new text otherwise |
| Engine.NoMarkerPath | patch/exec.js:63-69 | With neither anchor nor marker, a declared anchor throws "cannot locate anchor"; otherwise the block is appended after the trimmed text and a newline, and the step logs "appended" |
| Engine.Fold | patch/exec.js:36-70 | The loop logs one event per operation and keeps earlier lines. `changed` ends up set exactly when some event was a change. A throw stops the loop before the remaining operations |
| Engine.RunLoop | patch/exec.js:33-72 | The loop run statement by statement ends as `Fold` says, with `changed` set exactly when some logged event was a change |
| Engine.InvalidOpFails | patch/exec.js:36-39 | One invalid operation anywhere in the list makes the whole run throw |
| Engine.BlockPlacement | patch/exec.js:44-69 | After a successful step, the operation's block occurs in the new text (when the block holds no `$`) |
| Engine.RerunNeverAppends | patch/exec.js:41-69 | Once an operation has succeeded, running it again neither throws nor appends a second block |
| Engine.RerunUpdatesInPlace | patch/exec.js:44-61 | Once an operation has succeeded, a rerun whose anchor no longer occurs takes the marker path: it overwrites the leftmost marker span, which starts at or before the block the first run left, and logs "updated" or "already up-to-date" |
| Engine.RerunCanDuplicate | patch/exec.js:44-49 | An anchor occurring after the operation's own block is replaced by a second copy of the block, and both copies stay in the text |
| Engine.PatchSource | patch/exec.js:30-77 | An empty path throws and a missing file is skipped. Otherwise the file is written once exactly when the loop finishes with a change, and never when it throws. The final text and log are those of the loop, and "no changes needed" is logged otherwise |
| ExecPatch.Sanitise | patch/exec.js:7 | Every character of the result is in `[A-Za-z0-9_-]`, and the result has the UTF-16 length of the input |
| ExecPatch.SanitiseBmp | patch/exec.js:7 | Without characters outside the Basic Multilingual Plane, sanitising maps each character in place: safe ones stay and every other one becomes `-` |
| ExecPatch.SanitiseOne | patch/exec.js:7 | A safe character is kept, a character outside the Basic Multilingual Plane becomes two dashes, and any other character becomes one dash |
| ExecPatch.SanitiseConcat | patch/exec.js:7 | Sanitising works piece by piece: the result for a concatenation is the concatenation of the results |
| ExecPatch.Sentinel | patch/exec.js:7 | The sentinel is never empty and holds only safe characters, so escaping leaves it unchanged. It is `patch` when the trimmed `PATCH_NAME` is empty, and the sanitised name otherwise |
| ExecPatch.PatchSource | patch/exec.js:30-77 | `patchSource` with the sanitised sentinel: an invalid operation makes it throw with the file unwritten, and the file is written once exactly when some operation logged a change, with the loop's final text |
| HeaderAuthRunner.MarkerPattern | header-auth/patch-runner.js:19-22 | Escaping only the label gives the same pattern as escaping the prefix too, and the pattern looks for the literal `header-auth` markers |
| HeaderAuthRunner.PatchSource | header-auth/patch-runner.js:32-79 | The same write-once and throw-without-writing guarantees, with the fixed `header-auth` prefix |
| Findings.LoneBlockIsFound | patch/exec.js:21 | On a text that is one block, the search spans from the start to the end marker, and also covers the final newline with whole-line needles |
| Findings.RerunAddsNewline | patch/exec.js:51-58 | As written, re-running an operation whose block the search finds exactly inserts one newline after the block and logs "updated" |
| Findings.LoneBlockGainsNewline | patch/exec.js:51-58 | As written, a file holding only an operation's block gains a newline on every run |
| Findings.UpToDateUnreachable | patch/exec.js:51-58 | As written, every successful step logs a change: the "already up-to-date" branch is never taken, so every run that reaches the marker path rewrites the file |
| Findings.RerunAddsNewlineExample | header-auth/patch-runner.js:53-60 | As written, the file holding just the `header-auth` block of label `a` with body `x` gains a newline and logs "updated" |
| Findings.RerunIsNoop | patch/exec.js:51-54 | Corrected: with whole-line needles, re-running an operation over its own block leaves the text unchanged and logs "already up-to-date" |
| Findings.LoneBlockIsUpToDate | patch/exec.js:51-54 | Corrected: a file holding only an operation's block is left unchanged |
| Findings.RerunIsNoopExample | header-auth/patch-runner.js:53-56 | Corrected: the example file of finding 1 is left unchanged |
| Findings.PrefixLabelFindsOtherBlock | patch/exec.js:21 | As written, a label that is a prefix of another label finds a span wherever the other label's block sits |
| Findings.PrefixLabelClobbersBlock | patch/exec.js:51-58 | As written, the operation for label `a` rewrites the block of a label `ab`, leaving `b` and a newline behind its own block |
| Findings.PrefixLabelSpan | patch/exec.js:21 | As written, the search for `a` inside the block of `ab` spans from the block start to the end of `a` in the end marker of `ab` |
| Findings.PrefixLabelExample | header-auth/patch-runner.js:53-60 | As written, on a file with just the block of `ab`, label `a` leaves its own block followed by `b` and a newline |
| Findings.OtherLabelKeepsBlock | patch/exec.js:51-69 | Corrected: on a file holding just the block of another label, the operation finds no span. It appends its own block, or throws on a declared anchor |
| Findings.OtherLabelExample | header-auth/patch-runner.js:53-71 | Corrected: on the example file of finding 2, label `a` appends its own block |
| Findings.OtherBeginLineAbsent | patch/exec.js:21 | A whole begin line of one label occurs nowhere in the block of a different label |
| Findings.WholeLinesSeparateLabels | patch/exec.js:21 | Corrected: the whole begin (or end) line of one label never matches where that of a different label sits |

## Left out

- `runPatchModule` and the command-line entry point (`patch/exec.js:79-109`) are left out. They load a module dynamically, resolve a runner by name and pass its descriptors on. That is I/O and dynamic loading.
- The patch descriptor files that call `patchSource` are left out. They are data for the engine, not engine logic.
- The file system is left out. It is a map from path to text plus a write counter. `fs.existsSync`, `readFileSync` and `writeFileSync` become map membership, lookup and update.
- The console is left out. Each line becomes an `Event` carrying its kind and label. The `path.basename` in the message is dropped.
- Non-string fields are left out. Labels, anchors and patches are strings, so a missing or empty value is the empty string (or `None`). Values that JavaScript would coerce from other types are not modelled.
- Regex matching in general is left out. Only the shape `literal[\s\S]*?literal` that `buildMarkerPattern` builds is read and searched for.
- Engine.RerunNeverAppends, Engine.RerunUpdatesInPlace, Engine.RerunCanDuplicate, Engine.BlockPlacement and the Findings lemmas assume a block holding no `$`. With a `$` in the block, `replace` expands the `$` patterns, which `Markers.Substitution` models, and the block is no longer inserted verbatim.
- Findings.OtherLabelKeepsBlock and Findings.PrefixLabelClobbersBlock are stated for a file holding one block, whose prefix, label and body hold no slash. The general case needs a full account of where marker lines can occur in arbitrary text.
- Markers.Substitution: its contract covers only the replacement without `$`; the expansion of `$$`, `$&`, `` $` `` and `$'` is written out in its body but not restated.
- UTF-16 is left out. Strings are code-point sequences, except in `ExecPatch.Sanitise`, which counts a character outside the Basic Multilingual Plane as two code units because the sanitising regex has no `u` flag. Lone surrogates are not modelled.

## Findings

| source | as written | input that shows it | evidently intended | confidence | as-written member | corrected member |
|---|---|---|---|---|---|---|
| patch/exec.js:21 | The marker regex ends at the end-marker label, so `replace` keeps the newline after the old end marker and then inserts a block that brings its own newline, so the "already up-to-date" branch of lines 53-54 is never taken; `header-auth/patch-runner.js` line 21 is the same | A file holding just `// header-auth begin: a\nx\n// header-auth end: a\n`, with operation `{label: "a", patch: "x"}`. Every run adds another newline after the block, logs "updated" and writes the file | A second run over the same operations is a no-op: identical content and "already up-to-date" for every operation | not executed | Findings.RerunAddsNewline, Findings.RerunAddsNewlineExample, Findings.UpToDateUnreachable | Findings.RerunIsNoop, Findings.LoneBlockIsUpToDate |
| patch/exec.js:21 | The marker regex is not anchored at line ends, so a label that is a prefix of another label matches inside that label's markers; `header-auth/patch-runner.js` line 21 is the same | A file holding just `// header-auth begin: ab\nx\n// header-auth end: ab\n`, with operation `{label: "a", patch: "x"}`. The result is the block of `a` followed by `b\n`, and both markers of `ab` are gone | Each label finds only its own block, so `a` appends a block and the block of `ab` stays intact | not executed | Findings.PrefixLabelClobbersBlock, Findings.PrefixLabelExample | Findings.OtherLabelKeepsBlock, Findings.OtherLabelExample |

Both repairs search for whole marker lines (`Matching.WholeLines`), which
`Engine.Step` takes as a parameter. `Findings.WholeLinesSeparateLabels`
shows that with this search the marker lines of two different labels
never coincide.

The repair asks more of the file than the code as written does. The
whole-line search finds an end marker only when a `"\n"` follows it. After
a conversion to CRLF line ends, or with the final newline stripped, the
corrected step no longer finds the block: it appends a second copy, or
throws when an anchor is declared. The code as written still updates such a
block.
