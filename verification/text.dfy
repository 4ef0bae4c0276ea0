/** String helpers with the meaning JavaScript gives them: trim, trimEnd and literal substring search. */
module Text {
  import opened Results

  /**
   * The ECMAScript WhiteSpace and LineTerminator code points, which are
   * exactly the characters `String.prototype.trim` and `trimEnd` strip.
   */
  predicate IsSpace(c: char) {
    || c == '\t' || c == '\n' || c == '\U{000B}' || c == '\U{000C}' || c == '\r' || c == ' '
    || c == '\U{00A0}' || c == '\U{1680}' || ('\U{2000}' <= c <= '\U{200A}')
    || c == '\U{2028}' || c == '\U{2029}' || c == '\U{202F}' || c == '\U{205F}'
    || c == '\U{3000}' || c == '\U{FEFF}'
  }

  predicate AllSpace(s: string) {
    forall i | 0 <= i < |s| :: IsSpace(s[i])
  }

  /** `s.trimEnd()`: `s` without its trailing whitespace. */
  function TrimEnd(s: string): string
    decreases |s|
  {
    if |s| > 0 && IsSpace(s[|s| - 1]) then TrimEnd(s[..|s| - 1]) else s
  }

  /** `s.trimStart()`: `s` without its leading whitespace. */
  function TrimStart(s: string): string
    decreases |s|
  {
    if |s| > 0 && IsSpace(s[0]) then TrimStart(s[1..]) else s
  }

  /** `trimEnd` keeps the longest prefix of `s` that does not end in whitespace. */
  lemma {:induction false} TrimEndSpec(s: string)
    ensures TrimEnd(s) <= s
    ensures AllSpace(s[|TrimEnd(s)|..])
    ensures TrimEnd(s) == [] || !IsSpace(TrimEnd(s)[|TrimEnd(s)| - 1])
    decreases |s|
  {
    if |s| > 0 && IsSpace(s[|s| - 1]) {
      var r := TrimEnd(s[..|s| - 1]);
      TrimEndSpec(s[..|s| - 1]);
      assert s[|r|..] == s[..|s| - 1][|r|..] + [s[|s| - 1]];
    }
  }

  lemma SpaceCons(c: char, s: string)
    requires IsSpace(c) && AllSpace(s)
    ensures AllSpace([c] + s)
  {
    assert forall i | 1 <= i < |[c] + s| :: ([c] + s)[i] == s[i - 1];
  }

  /** `trimStart` keeps the longest suffix of `s` that does not start with whitespace. */
  lemma {:induction false} TrimStartSpec(s: string)
    ensures |TrimStart(s)| <= |s| && TrimStart(s) == s[|s| - |TrimStart(s)|..]
    ensures AllSpace(s[..|s| - |TrimStart(s)|])
    ensures TrimStart(s) == [] || !IsSpace(TrimStart(s)[0])
    decreases |s|
  {
    if |s| > 0 && IsSpace(s[0]) {
      var t := s[1..];
      var r := TrimStart(t);
      TrimStartSpec(t);
      assert t[|t| - |r|..] == s[|s| - |r|..];
      SpaceCons(s[0], t[..|t| - |r|]);
      assert s[..|s| - |r|] == [s[0]] + t[..|t| - |r|];
    }
  }

  /** `s.trim()`: `s` without its leading and trailing whitespace. */
  function Trim(s: string): string {
    TrimStart(TrimEnd(s))
  }

  /**
   * `trim` gives the empty string exactly for all-whitespace text, and
   * otherwise a string that starts and ends with non-whitespace characters
   * of `s`.
   */
  lemma TrimSpec(s: string)
    ensures |Trim(s)| <= |s|
    ensures Trim(s) == [] <==> AllSpace(s)
    ensures Trim(s) != [] ==> !IsSpace(Trim(s)[0]) && !IsSpace(Trim(s)[|Trim(s)| - 1])
    ensures AllSpace(s) || (Trim(s)[0] in s && Trim(s)[|Trim(s)| - 1] in s)
  {
    var e := TrimEnd(s);
    var r := TrimStart(e);
    TrimEndSpec(s);
    TrimStartSpec(e);
    if r == [] {
      assert s == e[..|e|] + s[|e|..];
      assert AllSpace(e[..|e| - |r|]);
    } else {
      assert r[|r| - 1] == e[|e| - 1] == s[|e| - 1];
      assert r[0] == e[|e| - |r|] == s[|e| - |r|];
    }
  }

  /**
   * What `trim` removes is whitespace at both ends and nothing else: the
   * result sits in `s` at offset `a`, with only whitespace before and after.
   */
  lemma TrimIsInfix(s: string) returns (a: nat)
    ensures a + |Trim(s)| <= |s| && Trim(s) == s[a..a + |Trim(s)|]
    ensures AllSpace(s[..a]) && AllSpace(s[a + |Trim(s)|..])
  {
    var e := TrimEnd(s);
    var r := TrimStart(e);
    TrimEndSpec(s);
    TrimStartSpec(e);
    assert Trim(s) == r;
    a := |e| - |r|;
    assert e == s[..|e|];
    assert r == s[a..a + |r|];
    assert s[..a] == e[..|e| - |r|];
  }

  /** `pat` occurs in `s` starting at index `i`. */
  predicate OccursAt(s: string, pat: string, i: int) {
    0 <= i && i + |pat| <= |s| && s[i..i + |pat|] == pat
  }

  /** `i` is the first occurrence of `pat` in `s` at or after `from`. */
  predicate IsFirstFrom(s: string, pat: string, from: int, i: int) {
    from <= i && OccursAt(s, pat, i) && forall k | from <= k < i :: !OccursAt(s, pat, k)
  }

  /** `s.includes(pat)`. */
  predicate Contains(s: string, pat: string) {
    exists k | 0 <= k <= |s| :: OccursAt(s, pat, k)
  }

  /** `s.indexOf(pat, from)`, with `None` for JavaScript's -1. */
  function IndexFrom(s: string, pat: string, from: nat): (r: Option<nat>)
    ensures r.Some? ==> IsFirstFrom(s, pat, from, r.value)
    ensures r.None? ==> forall k | from <= k :: !OccursAt(s, pat, k)
    decreases |s| - from
  {
    if from + |pat| > |s| then None
    else if s[from..from + |pat|] == pat then Some(from)
    else IndexFrom(s, pat, from + 1)
  }

  /** `s.indexOf(pat)`: found exactly when `s.includes(pat)`. */
  function IndexOf(s: string, pat: string): (r: Option<nat>)
    ensures r.Some? <==> Contains(s, pat)
    ensures r.Some? ==> IsFirstFrom(s, pat, 0, r.value)
  {
    var r := IndexFrom(s, pat, 0);
    assert r.Some? ==> OccursAt(s, pat, r.value);
    r
  }
}
