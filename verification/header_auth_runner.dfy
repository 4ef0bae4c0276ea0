/**
 * `header-auth/patch-runner.js`: the same engine with the sentinel prefix
 * fixed to `header-auth`, written into the regex without escaping.
 */
module HeaderAuthRunner {
  import opened Results
  import opened RegexLiteral
  import opened Ops
  import opened Markers
  import opened Engine

  const Prefix: string := "header-auth"

  /**
   * `buildMarkerPattern(label)` as this file writes it: only the label is
   * escaped. Since `header-auth` holds no regex syntax character, this is
   * the same pattern as escaping the prefix too, and it looks for the
   * literal begin and end markers.
   */
  function MarkerPattern(name: string): (p: string)
    ensures p == BuildMarkerPattern(Prefix, name)
    ensures ParseLazySpan(p) == Some((BeginMarker(Prefix, name), EndMarker(Prefix, name)))
  {
    assert IsPlain(Prefix);
    PatternText(Prefix, Escape(name))
  }

  /**
   * `patchSource` of `header-auth/patch-runner.js`: an empty path throws, a
   * missing file is skipped, a throw leaves the file unwritten, and the
   * file is written once exactly when some operation logged a change.
   */
  method PatchSource(fs: FileStore, file: string, ops: seq<Op>) returns (out: Outcome)
    ensures file == [] ==> out == Outcome(fs, [], Some(PathUndefined))
    ensures file != [] && file !in fs.files ==> out == Outcome(fs, [Skipped(file)], None)
    ensures out.thrown.Some? ==> out.fs == fs
    ensures file in fs.files && (exists k | 0 <= k < |ops| :: !Valid(ops[k])) ==> out.thrown.Some? && out.fs == fs
    ensures out.fs.writes == fs.writes + 1 <==> out.thrown.None? && SomeChange(out.log, 0)
    ensures out.fs.writes == fs.writes ==> out.fs == fs
    ensures out.fs.writes == fs.writes + 1 ==>
      && file in fs.files
      && var r := Fold(EngineStep(AsWritten, Prefix), State(fs.files[file], false, []), ops);
         r.Done? && out.fs.files == fs.files[file := r.state.text]
  {
    EngineValidates(AsWritten, Prefix);
    out := Engine.PatchSource(EngineStep(AsWritten, Prefix), fs, file, ops);
  }
}
