/**
 * `patch/exec.js`: the engine with its sentinel prefix taken from the
 * `PATCH_NAME` environment variable, sanitised to a safe token.
 */
module ExecPatch {
  import opened Results
  import opened Text
  import opened RegexLiteral
  import opened Ops
  import opened Markers
  import opened Engine

  /** The characters `[A-Za-z0-9_-]` a sentinel keeps. */
  predicate IsSentinelChar(c: char) {
    ('A' <= c <= 'Z') || ('a' <= c <= 'z') || ('0' <= c <= '9') || c == '_' || c == '-'
  }

  /** A character outside the Basic Multilingual Plane is two UTF-16 code units. */
  predicate IsAstral(c: char) {
    c as int > 0xFFFF
  }

  /** No character of `s` needs two UTF-16 code units. */
  predicate IsBmp(s: string) {
    forall i | 0 <= i < |s| :: !IsAstral(s[i])
  }

  /** The length JavaScript reports for `s`: its number of UTF-16 code units. */
  function Utf16Length(s: string): nat {
    if s == [] then 0 else (if IsAstral(s[0]) then 2 else 1) + Utf16Length(s[1..])
  }

  /**
   * `s.replace(/[^A-Za-z0-9_-]/g, "-")`. The regex has no `u` flag, so it
   * replaces UTF-16 code units: an astral character becomes two dashes.
   * The result keeps the JavaScript length and holds only safe characters.
   */
  function Sanitise(s: string): (r: string)
    ensures |r| == Utf16Length(s)
    ensures forall i | 0 <= i < |r| :: IsSentinelChar(r[i])
    decreases |s|
  {
    if s == [] then []
    else
      var head := if IsSentinelChar(s[0]) then [s[0]] else if IsAstral(s[0]) then "--" else "-";
      var rest := Sanitise(s[1..]);
      assert forall i | 0 <= i < |head| :: IsSentinelChar(head[i]);
      assert forall i | |head| <= i < |head + rest| :: (head + rest)[i] == rest[i - |head|];
      head + rest
  }

  /** Without astral characters, sanitising maps each character in place: safe ones stay, others become `-`. */
  lemma {:induction false} SanitiseBmp(s: string)
    requires IsBmp(s)
    ensures |Sanitise(s)| == |s|
    ensures forall i | 0 <= i < |s| :: Sanitise(s)[i] == if IsSentinelChar(s[i]) then s[i] else '-'
    decreases |s|
  {
    if s != [] {
      var t := s[1..];
      assert forall i | 0 <= i < |t| :: t[i] == s[i + 1];
      SanitiseBmp(t);
      var r := Sanitise(s);
      assert r == [if IsSentinelChar(s[0]) then s[0] else '-'] + Sanitise(t);
      assert forall i | 1 <= i < |s| :: r[i] == Sanitise(t)[i - 1];
    }
  }

  /**
   * One character: a safe one is kept, an astral one becomes two dashes
   * (one per UTF-16 code unit), any other one becomes a dash.
   */
  lemma SanitiseOne(c: char)
    ensures Sanitise([c]) == if IsSentinelChar(c) then [c] else if IsAstral(c) then "--" else "-"
  {
    assert [c][1..] == [];
  }

  /** The regex replaces each code unit on its own, so sanitising works piece by piece. */
  lemma {:induction false} SanitiseConcat(a: string, b: string)
    ensures Sanitise(a + b) == Sanitise(a) + Sanitise(b)
    decreases |a|
  {
    if a != [] {
      assert (a + b)[0] == a[0];
      assert (a + b)[1..] == a[1..] + b;
      SanitiseConcat(a[1..], b);
      var head := if IsSentinelChar(a[0]) then [a[0]] else if IsAstral(a[0]) then "--" else "-";
      assert Sanitise(a + b) == head + Sanitise(a[1..] + b);
      assert Sanitise(a) == head + Sanitise(a[1..]);
      assert head + (Sanitise(a[1..]) + Sanitise(b)) == head + Sanitise(a[1..]) + Sanitise(b);
    } else {
      assert a + b == b;
    }
  }

  /** `(process.env.PATCH_NAME || "").trim()` */
  function TrimmedName(patchName: Option<string>): string {
    Trim(if patchName.Some? then patchName.value else "")
  }

  /**
   * `SENTINEL`: the trimmed `PATCH_NAME` with every character outside
   * `[A-Za-z0-9_-]` turned into `-`, or `patch` when that is empty (unset,
   * empty or all whitespace). It is never empty, only ever holds safe
   * characters, and so comes through regex escaping unchanged.
   */
  function Sentinel(patchName: Option<string>): (r: string)
    ensures r != []
    ensures forall i | 0 <= i < |r| :: IsSentinelChar(r[i])
    ensures Escape(r) == r
    ensures TrimmedName(patchName) == [] ==> r == "patch"
    ensures TrimmedName(patchName) != [] ==> |r| == Utf16Length(TrimmedName(patchName))
    ensures TrimmedName(patchName) != [] ==> r == Sanitise(TrimmedName(patchName))
  {
    var t := TrimmedName(patchName);
    var sanitised := Sanitise(t);
    if sanitised == [] then
      assert t == [];
      SafeIsPlain("patch");
      "patch"
    else
      SafeIsPlain(sanitised);
      sanitised
  }

  /** Sentinel characters are not regex syntax characters, so escaping leaves them alone. */
  lemma SafeIsPlain(s: string)
    requires forall i | 0 <= i < |s| :: IsSentinelChar(s[i])
    ensures Escape(s) == s
  {
    assert IsPlain(s);
  }

  /**
   * `patchSource` of `patch/exec.js`: the engine loop with the sanitised
   * sentinel. A throw, from a bad operation or a missing anchor, leaves the
   * file unwritten; otherwise the file is written once exactly when some
   * operation logged a change.
   */
  method PatchSource(patchName: Option<string>, fs: FileStore, file: string, ops: seq<Op>) returns (out: Outcome)
    ensures file == [] ==> out == Outcome(fs, [], Some(PathUndefined))
    ensures file != [] && file !in fs.files ==> out == Outcome(fs, [Skipped(file)], None)
    ensures out.thrown.Some? ==> out.fs == fs
    ensures file in fs.files && (exists k | 0 <= k < |ops| :: !Valid(ops[k])) ==> out.thrown.Some? && out.fs == fs
    ensures out.fs.writes == fs.writes + 1 <==> out.thrown.None? && SomeChange(out.log, 0)
    ensures out.fs.writes == fs.writes ==> out.fs == fs
    ensures out.fs.writes == fs.writes + 1 ==>
      && file in fs.files
      && var r := Fold(EngineStep(AsWritten, Sentinel(patchName)), State(fs.files[file], false, []), ops);
         r.Done? && out.fs.files == fs.files[file := r.state.text]
  {
    EngineValidates(AsWritten, Sentinel(patchName));
    out := Engine.PatchSource(EngineStep(AsWritten, Sentinel(patchName)), fs, file, ops);
  }
}
