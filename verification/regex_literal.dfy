/**
 * Just enough of JavaScript regular-expression syntax to show that the marker
 * pattern is literal: a pattern read as a run of literal atoms (an ordinary
 * character, or a backslash before a syntax character), then the lazy
 * wildcard `[\s\S]*?`, then a second run of literal atoms.
 */
module RegexLiteral {
  import opened Results

  /** The characters `buildMarkerPattern` escapes: the regex SyntaxCharacter set. */
  predicate IsSyntaxChar(c: char) {
    || c == '.' || c == '*' || c == '+' || c == '?' || c == '^' || c == '$'
    || c == '{' || c == '}' || c == '(' || c == ')' || c == '|' || c == '[' || c == ']'
    || c == '\\'
  }

  predicate IsPlain(s: string) {
    forall i | 0 <= i < |s| :: !IsSyntaxChar(s[i])
  }

  /** `s.replace(/[.*+?^${}()|[\]\\]/g, "\\$&")`: a backslash before every syntax character. */
  function Escape(s: string): (r: string)
    ensures |s| <= |r| <= 2 * |s|
    ensures IsPlain(s) ==> r == s
    decreases |s|
  {
    if s == [] then [] else Atom(s[0]) + Escape(s[1..])
  }

  /** One character as the escaped text spells it. */
  function Atom(c: char): string {
    if IsSyntaxChar(c) then ['\\', c] else [c]
  }

  /** The lazy wildcard between the begin and the end marker. */
  const LazyAny: string := "[\\s\\S]*?"

  /**
   * Reads the longest run of literal atoms at the start of `p`; returns the
   * characters they match, in order, and the unread rest of `p`.
   */
  function ReadLiteral(p: string): (r: (string, string))
    ensures |r.1| <= |p|
    decreases |p|
  {
    if |p| >= 2 && p[0] == '\\' && IsSyntaxChar(p[1]) then
      var (lit, rest) := ReadLiteral(p[2..]);
      ([p[1]] + lit, rest)
    else if |p| >= 1 && !IsSyntaxChar(p[0]) then
      var (lit, rest) := ReadLiteral(p[1..]);
      ([p[0]] + lit, rest)
    else ([], p)
  }

  /**
   * Reads `p` as `L1[\s\S]*?L2` with literal runs `L1` and `L2`. Such a regex
   * matches a span exactly when it starts with the string `L1` and ends with
   * the nearest following string `L2`; the result is that pair of strings.
   */
  function ParseLazySpan(p: string): Option<(string, string)> {
    var (first, rest) := ReadLiteral(p);
    if |rest| >= |LazyAny| && rest[..|LazyAny|] == LazyAny then
      var (second, tail) := ReadLiteral(rest[|LazyAny|..]);
      if tail == [] then Some((first, second)) else None
    else None
  }

  /** Escaping distributes over concatenation. */
  lemma {:induction false} EscapeConcat(a: string, b: string)
    ensures Escape(a + b) == Escape(a) + Escape(b)
    decreases |a|
  {
    if a != [] {
      assert (a + b)[0] == a[0];
      assert (a + b)[1..] == a[1..] + b;
      EscapeConcat(a[1..], b);
      Reassociate(Atom(a[0]), Escape(a[1..]), Escape(b));
    } else {
      assert a + b == b;
    }
  }

  lemma Reassociate(x: string, y: string, z: string)
    ensures x + (y + z) == x + y + z
  {
  }

  /**
   * An escaped string reads back as exactly that string, as long as what
   * follows it is not itself a literal atom.
   */
  lemma {:induction false} EscapeReadsBack(s: string, rest: string)
    requires rest == [] || (rest[0] != '\\' && IsSyntaxChar(rest[0]))
    ensures ReadLiteral(Escape(s) + rest) == (s, rest)
    decreases |s|
  {
    if s == [] {
      assert Escape(s) + rest == rest;
    } else {
      EscapeReadsBack(s[1..], rest);
      Reassociate(Atom(s[0]), Escape(s[1..]), rest);
      ReadAtom(s[0], Escape(s[1..]) + rest);
      assert [s[0]] + s[1..] == s;
    }
  }

  /** The regex reads one escaped character as that character. */
  lemma ReadAtom(c: char, tail: string)
    ensures ReadLiteral(Atom(c) + tail) == ([c] + ReadLiteral(tail).0, ReadLiteral(tail).1)
  {
    var p := Atom(c) + tail;
    if IsSyntaxChar(c) {
      assert p[2..] == tail;
    } else {
      assert p[1..] == tail;
    }
  }

  /** `new RegExp(escape(a) + "[\\s\\S]*?" + escape(b))` looks for the literal strings `a` and `b`. */
  lemma EscapedSpanIsLiteral(a: string, b: string)
    ensures ParseLazySpan(Escape(a) + LazyAny + Escape(b)) == Some((a, b))
  {
    var p := Escape(a) + LazyAny + Escape(b);
    EscapeReadsBack(a, LazyAny + Escape(b));
    assert p == Escape(a) + (LazyAny + Escape(b));
    assert (LazyAny + Escape(b))[..|LazyAny|] == LazyAny;
    assert (LazyAny + Escape(b))[|LazyAny|..] == Escape(b);
    EscapeReadsBack(b, []);
    assert Escape(b) + [] == Escape(b);
  }
}
