/**
 * Sentinel markers: the begin/end comment lines that wrap a patched block,
 * the regular expression `buildMarkerPattern` builds to find them, the
 * `wrapWithMarker` block format, and the literal search that stands for the
 * regex match together with the `$`-pattern expansion `String.prototype.replace`
 * applies to the block it inserts.
 */
module Markers {
  import opened Results
  import opened Text
  import opened RegexLiteral
  import opened Ops

  /** `// <prefix> begin: <label>` */
  function BeginMarker(prefix: string, name: string): string {
    "// " + prefix + " begin: " + name
  }

  /** `// <prefix> end: <label>` */
  function EndMarker(prefix: string, name: string): string {
    "// " + prefix + " end: " + name
  }

  /**
   * `buildMarkerPattern(label)`: the regex source text built from the escaped
   * prefix and label. It is a lazy span between two literal strings, and those
   * strings are the begin and the end marker verbatim, whatever characters the
   * prefix and the label contain.
   */
  function BuildMarkerPattern(prefix: string, name: string): (p: string)
    ensures ParseLazySpan(p) == Some((BeginMarker(prefix, name), EndMarker(prefix, name)))
  {
    var p := PatternText(Escape(prefix), Escape(name));
    EscapedMarker(prefix, " begin: ", name);
    EscapedMarker(prefix, " end: ", name);
    EscapedSpanIsLiteral(BeginMarker(prefix, name), EndMarker(prefix, name));
    Regroup("// " + Escape(prefix) + " begin: " + Escape(name) + LazyAny, "// ", Escape(prefix), " end: ", Escape(name));
    p
  }

  /** The template both source files fill in: `// ${prefix} begin: ${label}[\s\S]*?// ${prefix} end: ${label}`. */
  function PatternText(prefixText: string, nameText: string): string {
    "// " + prefixText + " begin: " + nameText + LazyAny + "// " + prefixText + " end: " + nameText
  }

  lemma Regroup(x: string, a: string, b: string, c: string, d: string)
    ensures x + (a + b + c + d) == x + a + b + c + d
  {
  }

  lemma EscapedMarker(prefix: string, kind: string, name: string)
    requires kind == " begin: " || kind == " end: "
    ensures Escape("// " + prefix + kind + name) == "// " + Escape(prefix) + kind + Escape(name)
  {
    assert IsPlain("// ");
    assert IsPlain(kind);
    EscapeConcat("// " + prefix + kind, name);
    EscapeConcat("// " + prefix, kind);
    EscapeConcat("// ", prefix);
  }

  /** The text `wrapWithMarker` produces for a validated operation. */
  function Block(prefix: string, name: string, patch: string): string {
    BeginMarker(prefix, name) + "\n" + Trim(patch) + "\n" + EndMarker(prefix, name) + "\n"
  }

  /**
   * `wrapWithMarker({label, patch})`: throws on a missing label, then on
   * missing patch content, and otherwise returns the marked block.
   */
  function WrapWithMarker(prefix: string, name: string, patch: string): (r: Result<string, Error>)
    ensures name == [] ==> r == Err(WrapLabelRequired)
    ensures name != [] && patch == [] ==> r == Err(WrapPatchRequired(name))
    ensures r.Ok? <==> name != [] && patch != []
    ensures r.Ok? ==> r.value == Block(prefix, name, patch)
  {
    if name == [] then Err(WrapLabelRequired)
    else if patch == [] then Err(WrapPatchRequired(name))
    else Ok(Block(prefix, name, patch))
  }

  /**
   * Which strings the marker search looks for: the bare marker text, as the
   * regex does, or whole marker lines including their newline.
   */
  datatype Matching = AsWritten | WholeLines

  function BeginNeedle(m: Matching, prefix: string, name: string): string {
    if m == AsWritten then BeginMarker(prefix, name) else BeginMarker(prefix, name) + "\n"
  }

  function EndNeedle(m: Matching, prefix: string, name: string): string {
    if m == AsWritten then EndMarker(prefix, name) else EndMarker(prefix, name) + "\n"
  }

  /** `[i, j)` starts with `b` and ends with an `e` that begins at or after the end of that `b`. */
  ghost predicate SpanAt(s: string, b: string, e: string, i: int, j: int) {
    OccursAt(s, b, i) && i + |b| <= j - |e| && OccursAt(s, e, j - |e|)
  }

  /**
   * The match a JavaScript regex `b[\s\S]*?e` reports: the span with the
   * smallest start, and among those the shortest.
   */
  ghost predicate IsLeftmostLazy(s: string, b: string, e: string, i: int, j: int) {
    && SpanAt(s, b, e, i, j)
    && forall i', j' | SpanAt(s, b, e, i', j') :: i < i' || (i == i' && j <= j')
  }

  ghost predicate HasSpan(s: string, b: string, e: string) {
    exists i, j :: SpanAt(s, b, e, i, j)
  }

  /**
   * The marker search as literal search: the first `b`, then the first `e`
   * at or after its end. It finds exactly the leftmost-shortest regex match,
   * and finds nothing exactly when the regex does not match.
   */
  function FindSpan(s: string, b: string, e: string): (r: Option<(nat, nat)>)
    ensures r.Some? ==> r.value.0 <= r.value.1 <= |s| && IsLeftmostLazy(s, b, e, r.value.0, r.value.1)
    ensures r.None? <==> !HasSpan(s, b, e)
  {
    match IndexOf(s, b)
    case None =>
      assert forall i, j | SpanAt(s, b, e, i, j) :: OccursAt(s, b, i);
      None
    case Some(i) =>
      match IndexFrom(s, e, i + |b|)
      case None =>
        assert forall i', j' | SpanAt(s, b, e, i', j') :: i <= i' && OccursAt(s, e, j' - |e|);
        None
      case Some(k) =>
        assert SpanAt(s, b, e, i, k + |e|);
        Some((i, k + |e|))
  }

  /** No `$` in the replacement: `String.prototype.replace` then inserts it verbatim. */
  predicate NoDollar(s: string) {
    '$' !in s
  }

  /**
   * GetSubstitution for a match of `s[pos..end]` when the pattern has no
   * capture groups: `$$` is a dollar sign, `$&` the matched text, `` $` ``
   * the text before it, `$'` the text after it; every other `$` is literal.
   */
  function Substitution(repl: string, s: string, pos: nat, end: nat): (r: string)
    requires pos <= end <= |s|
    ensures NoDollar(repl) ==> r == repl
    decreases |repl|
  {
    if repl == [] then []
    else if repl[0] == '$' && |repl| >= 2 && repl[1] == '$' then "$" + Substitution(repl[2..], s, pos, end)
    else if repl[0] == '$' && |repl| >= 2 && repl[1] == '&' then s[pos..end] + Substitution(repl[2..], s, pos, end)
    else if repl[0] == '$' && |repl| >= 2 && repl[1] == '`' then s[..pos] + Substitution(repl[2..], s, pos, end)
    else if repl[0] == '$' && |repl| >= 2 && repl[1] == '\'' then s[end..] + Substitution(repl[2..], s, pos, end)
    else
      assert NoDollar(repl) ==> NoDollar(repl[1..]) by {
        assert forall k | 0 <= k < |repl[1..]| :: repl[1..][k] == repl[k + 1];
      }
      [repl[0]] + Substitution(repl[1..], s, pos, end)
  }

  /**
   * `s.replace(pattern, repl)` once the match `[i, j)` is known: the text
   * before and after the match is kept, the match gives way to the expanded
   * replacement, which is `repl` itself when `repl` holds no `$`.
   */
  function Replace(s: string, i: nat, j: nat, repl: string): (r: string)
    requires i <= j <= |s|
    ensures |r| >= i && r[..i] == s[..i]
    ensures |r| >= |s| - j && r[|r| - (|s| - j)..] == s[j..]
    ensures NoDollar(repl) ==> r == s[..i] + repl + s[j..]
  {
    var mid := Substitution(repl, s, i, j);
    var r := s[..i] + mid + s[j..];
    assert r[..i] == s[..i];
    assert r[|r| - (|s| - j)..] == s[j..];
    r
  }

  /** Where the needles sit inside a block: the begin needle at its start, the end needle after the body. */
  lemma BlockLayout(m: Matching, prefix: string, name: string, patch: string)
    ensures OccursAt(Block(prefix, name, patch), BeginNeedle(m, prefix, name), 0)
    ensures OccursAt(Block(prefix, name, patch), EndNeedle(m, prefix, name), EndOffset(prefix, name, patch))
    ensures |BeginNeedle(m, prefix, name)| <= EndOffset(prefix, name, patch)
  {
    LayoutOf(BeginMarker(prefix, name), Trim(patch), EndMarker(prefix, name));
  }

  /** Where the lines sit in text laid out as a block from `x`, `body` and `y`. */
  lemma LayoutOf(x: string, body: string, y: string)
    ensures OccursAt(x + "\n" + body + "\n" + y + "\n", x, 0)
    ensures OccursAt(x + "\n" + body + "\n" + y + "\n", x + "\n", 0)
    ensures OccursAt(x + "\n" + body + "\n" + y + "\n", y, |x| + |body| + 2)
    ensures OccursAt(x + "\n" + body + "\n" + y + "\n", y + "\n", |x| + |body| + 2)
  {
    var t := x + "\n" + body + "\n" + y + "\n";
    var off := |x| + |body| + 2;
    assert t == (x + "\n") + (body + "\n") + (y + "\n");
    assert t[..|x| + 1] == x + "\n";
    assert t[..|x|] == x;
    assert t[off..off + |y| + 1] == y + "\n";
    assert t[off..off + |y|] == y;
  }

  /** Offset of the end marker inside `Block(prefix, name, patch)`. */
  function EndOffset(prefix: string, name: string, patch: string): nat {
    |BeginMarker(prefix, name)| + |Trim(patch)| + 2
  }

  /**
   * A block, once in the text, is found again by the marker search, for
   * either kind of needle: re-running the operation never loses track of it.
   */
  lemma BlockIsRediscovered(m: Matching, s: string, p: nat, prefix: string, name: string, patch: string)
    requires OccursAt(s, Block(prefix, name, patch), p)
    ensures HasSpan(s, BeginNeedle(m, prefix, name), EndNeedle(m, prefix, name))
  {
    var blk := Block(prefix, name, patch);
    var b := BeginNeedle(m, prefix, name);
    var e := EndNeedle(m, prefix, name);
    var off := EndOffset(prefix, name, patch);
    BlockLayout(m, prefix, name, patch);
    OccursInside(s, blk, p, b, 0);
    OccursInside(s, blk, p, e, off);
    assert SpanAt(s, b, e, p, p + off + |e|);
  }

  /** An occurrence inside an occurrence is an occurrence. */
  lemma OccursInside(s: string, t: string, p: nat, u: string, k: nat)
    requires OccursAt(s, t, p)
    requires OccursAt(t, u, k)
    ensures OccursAt(s, u, p + k)
  {
    forall j | 0 <= j < |u|
      ensures s[p + k + j] == u[j]
    {
      assert s[p..p + |t|][k + j] == t[k + j];
      assert t[k..k + |u|][j] == t[k + j];
    }
    assert s[p + k..p + k + |u|] == u;
  }
}
