/**
 * Two places where the engine as written falls short of what its design
 * promises, each shown on the as-written marker search (`AsWritten`) and
 * repaired by searching for whole marker lines (`WholeLines`).
 *
 * 1. The regex match stops right after the end marker's label and leaves
 *    its newline in place, while the block written over it ends in a
 *    newline: every re-run adds one more newline, logs "updated" and writes
 *    the file, and "already up-to-date" is never reached.
 * 2. The search is not anchored at line ends, so label `a` finds the
 *    markers of label `ab` and rewrites that block.
 */
module Findings {
  import opened Results
  import opened Text
  import opened Ops
  import opened Markers
  import opened Engine

  /** A span with no earlier begin needle and no end needle before its end needle is the regex match. */
  lemma SpanIsExact(t: string, b: string, e: string, i: nat, k: nat) returns (j: nat)
    requires OccursAt(t, b, i) && OccursAt(t, e, k) && i + |b| <= k
    requires forall n | 0 <= n < i :: !OccursAt(t, b, n)
    requires forall n | i + |b| <= n < k :: !OccursAt(t, e, n)
    ensures j == k + |e| && IsLeftmostLazy(t, b, e, i, j)
  {
    j := k + |e|;
    assert SpanAt(t, b, e, i, k + |e|);
    forall i', j' | SpanAt(t, b, e, i', j')
      ensures i < i' || (i == i' && k + |e| <= j')
    {
      if i' == i {
        assert !(i + |b| <= j' - |e| < k);
      }
    }
  }

  /** Between the begin marker and the end marker a block holds newlines and the trimmed body only. */
  lemma BodyHasNoSlash(prefix: string, name: string, patch: string)
    requires '/' !in Trim(patch)
    ensures forall n | |BeginMarker(prefix, name)| <= n < EndOffset(prefix, name, patch) :: Block(prefix, name, patch)[n] != '/'
  {
    SlashFreeBody(BeginMarker(prefix, name), Trim(patch), EndMarker(prefix, name));
  }

  /** A block ends with its end marker line. */
  lemma BlockEndLine(prefix: string, name: string, patch: string)
    ensures |Block(prefix, name, patch)| == EndOffset(prefix, name, patch) + |EndMarker(prefix, name)| + 1
    ensures Block(prefix, name, patch)[EndOffset(prefix, name, patch)..] == EndMarker(prefix, name) + "\n"
  {
    BlockParts(BeginMarker(prefix, name), Trim(patch), EndMarker(prefix, name));
    LastPart(BeginMarker(prefix, name), "\n" + Trim(patch) + "\n", EndMarker(prefix, name) + "\n");
  }

  /** A block regrouped as begin marker, body lines and end line. */
  lemma BlockParts(x: string, body: string, y: string)
    ensures x + "\n" + body + "\n" + y + "\n" == x + ("\n" + body + "\n") + (y + "\n")
  {
  }

  /** Only the body and its two newlines sit between the begin and the end line of `x`, `body`, `y` laid out as a block. */
  lemma SlashFreeBody(x: string, body: string, y: string)
    requires '/' !in body
    ensures forall n | |x| <= n < |x| + |body| + 2 :: (x + "\n" + body + "\n" + y + "\n")[n] != '/'
  {
    var t := x + "\n" + body + "\n" + y + "\n";
    forall n | |x| <= n < |x| + |body| + 2
      ensures t[n] != '/'
    {
      if n == |x| || n == |x| + |body| + 1 {
        assert t[n] == '\n';
      } else {
        assert t[n] == body[n - |x| - 1];
      }
    }
  }

  /** The last part of `x + mid + y`. */
  lemma LastPart(x: string, mid: string, y: string)
    ensures (x + mid + y)[|x| + |mid|..] == y
  {
    assert (x + mid + y)[|x| + |mid|..] == y;
  }

  /** A needle that starts with a slash does not occur where the text has none. */
  lemma NoSlashNoNeedle(t: string, e: string, n: nat)
    requires n < |t| && t[n] != '/' && |e| > 0 && e[0] == '/'
    ensures !OccursAt(t, e, n)
  {
  }

  /** An end needle starts with the comment's slashes. */
  lemma EndNeedleStartsWithSlash(m: Matching, prefix: string, name: string)
    ensures |EndNeedle(m, prefix, name)| > 0 && EndNeedle(m, prefix, name)[0] == '/'
  {
    assert EndNeedle(m, prefix, name)[0] == EndMarker(prefix, name)[0];
  }

  /**
   * A text that is one block whose trimmed body has no slash: the marker
   * search finds that block, up to the end marker (`AsWritten`) or up to
   * and including the newline after it (`WholeLines`).
   */
  lemma LoneBlockIsFound(m: Matching, prefix: string, name: string, patch: string) returns (i: nat, j: nat)
    requires '/' !in Trim(patch)
    ensures i == 0 && j == |Block(prefix, name, patch)| - (if m == AsWritten then 1 else 0)
    ensures IsLeftmostLazy(Block(prefix, name, patch), BeginNeedle(m, prefix, name), EndNeedle(m, prefix, name), i, j)
  {
    var blk := Block(prefix, name, patch);
    var b := BeginNeedle(m, prefix, name);
    var e := EndNeedle(m, prefix, name);
    var off := EndOffset(prefix, name, patch);
    BlockLayout(m, prefix, name, patch);
    BodyHasNoSlash(prefix, name, patch);
    EndNeedleStartsWithSlash(m, prefix, name);
    forall n | |b| <= n < off
      ensures !OccursAt(blk, e, n)
    {
      NoSlashNoNeedle(blk, e, n);
    }
    i := 0;
    j := SpanIsExact(blk, b, e, i, off);
  }

  /**
   * As written: when the marker search finds a block exactly, re-running
   * its operation puts the same block back and keeps the newline after the
   * old end marker, so one newline is added right after the block and the
   * run counts as an update.
   */
  lemma RerunAddsNewline(prefix: string, t: string, op: Op, i: nat, j: nat)
    requires Valid(op) && NoDollar(Block(prefix, op.name, op.patch)) && !AnchorHit(t, op)
    requires OccursAt(t, Block(prefix, op.name, op.patch), i) && j + 1 == i + |Block(prefix, op.name, op.patch)|
    requires IsLeftmostLazy(t, BeginNeedle(AsWritten, prefix, op.name), EndNeedle(AsWritten, prefix, op.name), i, j)
    ensures Step(AsWritten, prefix, t, op) == Ok(Applied(t[..j + 1] + "\n" + t[j + 1..], Updated(op.name)))
  {
    var blk := Block(prefix, op.name, op.patch);
    MarkerPath(AsWritten, prefix, t, op, i, j);
    BlockEndsInNewline(prefix, op.name, op.patch);
    var next := Replace(t, i, j, blk);
    KeepsOldNewline(t, blk, i, next);
  }

  lemma BlockEndsInNewline(prefix: string, name: string, patch: string)
    ensures |Block(prefix, name, patch)| > 0 && Block(prefix, name, patch)[|Block(prefix, name, patch)| - 1] == '\n'
  {
  }

  /** Putting a block ending in a newline over all but the last character of its own copy adds a newline after it. */
  lemma KeepsOldNewline(t: string, blk: string, i: nat, next: string)
    requires OccursAt(t, blk, i) && |blk| > 0 && blk[|blk| - 1] == '\n'
    requires next == t[..i] + blk + t[i + |blk| - 1..]
    ensures next == t[..i + |blk|] + "\n" + t[i + |blk|..] && next != t
  {
    var k := i + |blk|;
    assert t[i..k] == blk;
    assert t[k - 1] == t[i..k][|blk| - 1];
    assert t[k - 1..] == "\n" + t[k..];
    assert t[..i] + blk == t[..k];
    assert |next| == |t| + 1;
  }

  /**
   * As written, on a file that is nothing but the operation's own block:
   * every run appends a newline, logs "updated" and so writes the file.
   */
  lemma LoneBlockGainsNewline(prefix: string, op: Op)
    requires Valid(op) && NoDollar(Block(prefix, op.name, op.patch)) && '/' !in Trim(op.patch)
    requires !AnchorHit(Block(prefix, op.name, op.patch), op)
    ensures Step(AsWritten, prefix, Block(prefix, op.name, op.patch), op)
         == Ok(Applied(Block(prefix, op.name, op.patch) + "\n", Updated(op.name)))
  {
    var t := Block(prefix, op.name, op.patch);
    var i, j := LoneBlockIsFound(AsWritten, prefix, op.name, op.patch);
    assert OccursAt(t, t, i);
    RerunAddsNewline(prefix, t, op, i, j);
    assert t[..j + 1] + "\n" + t[j + 1..] == t + "\n";
  }

  /**
   * As written, "already up-to-date" is never logged: every successful
   * step logs a change, so every run that reaches the marker path rewrites
   * the file. The matched span ends with the bare end marker, the block put
   * over it ends with the end marker and a newline, and no span can end
   * both ways because an end marker starts with `// `.
   */
  lemma UpToDateUnreachable(prefix: string, t: string, op: Op)
    requires NoDollar(Block(prefix, op.name, op.patch))
    requires Step(AsWritten, prefix, t, op).Ok?
    ensures Step(AsWritten, prefix, t, op).value.event.Changes()
  {
    var blk := Block(prefix, op.name, op.patch);
    var b := BeginMarker(prefix, op.name);
    var e := EndMarker(prefix, op.name);
    if AnchorHit(t, op) {
      AnchorPath(AsWritten, prefix, t, op, IndexOf(t, op.remove.value).value);
    } else if !HasSpan(t, b, e) {
      NoMarkerPath(AsWritten, prefix, t, op);
    } else {
      var (i, j) := FindSpan(t, b, e).value;
      MarkerPath(AsWritten, prefix, t, op, i, j);
      BlockEndLine(prefix, op.name, op.patch);
      OverwriteDiffers(t, i, j, blk, e);
    }
  }

  /**
   * Putting `blk`, which ends with `e` and a newline, over a span that ends
   * with `e` changes the text, when the second and third characters of `e`
   * differ.
   */
  lemma OverwriteDiffers(t: string, i: nat, j: nat, blk: string, e: string)
    requires i + |e| <= j <= |t| && OccursAt(t, e, j - |e|)
    requires |e| >= 3 && e[1] != e[2]
    requires |blk| > |e| && blk[|blk| - |e| - 1..] == e + "\n"
    ensures t[..i] + blk + t[j..] != t
  {
    var r := t[..i] + blk + t[j..];
    if |blk| == j - i {
      var p := j - |e| + 1;
      assert r[p] == blk[p - i];
      assert blk[p - i] == blk[|blk| - |e| - 1..][2] == e[2];
      assert t[p] == t[j - |e|..j][1] == e[1];
    } else {
      assert |r| != |t|;
    }
  }

  /** The operation of the examples: label `a`, body `x`, no anchor. */
  const ExampleOp: Op := Op("a", None, "x")

  lemma TrimOfPlainWord()
    ensures Trim("x") == "x"
  {
    assert TrimEnd("x") == "x";
    assert TrimStart("x") == "x";
  }

  /** A block has no dollar sign when none of its parts has one. */
  lemma NoDollarBlock(prefix: string, name: string, patch: string)
    requires NoDollar(prefix) && NoDollar(name) && NoDollar(patch)
    ensures NoDollar(Block(prefix, name, patch))
  {
    var a := TrimIsInfix(patch);
    var body := Trim(patch);
    forall k | 0 <= k < |body|
      ensures body[k] != '$'
    {
      assert body[k] == patch[a + k];
    }
  }

  /**
   * Input showing finding 1: the file holding only
   * "// header-auth begin: a\nx\n// header-auth end: a\n" gains a newline,
   * and logs an update, each time its operation runs.
   */
  lemma RerunAddsNewlineExample()
    ensures Step(AsWritten, "header-auth", Block("header-auth", "a", "x"), ExampleOp)
         == Ok(Applied(Block("header-auth", "a", "x") + "\n", Updated("a")))
  {
    TrimOfPlainWord();
    NoDollarBlock("header-auth", "a", "x");
    LoneBlockGainsNewline("header-auth", ExampleOp);
  }

  /**
   * Corrected: with whole-line needles the span covers the block including
   * its final newline, so re-running an operation over its own block
   * leaves the text unchanged and logs "already up-to-date".
   */
  lemma RerunIsNoop(prefix: string, t: string, op: Op, i: nat, j: nat)
    requires Valid(op) && NoDollar(Block(prefix, op.name, op.patch)) && !AnchorHit(t, op)
    requires OccursAt(t, Block(prefix, op.name, op.patch), i) && j == i + |Block(prefix, op.name, op.patch)|
    requires IsLeftmostLazy(t, BeginNeedle(WholeLines, prefix, op.name), EndNeedle(WholeLines, prefix, op.name), i, j)
    ensures Step(WholeLines, prefix, t, op) == Ok(Applied(t, UpToDate(op.name)))
  {
    var blk := Block(prefix, op.name, op.patch);
    MarkerPath(WholeLines, prefix, t, op, i, j);
    var next := Replace(t, i, j, blk);
    PutsBackItself(t, blk, i, next);
  }

  /** Putting a block over its own copy gives the text back. */
  lemma PutsBackItself(t: string, blk: string, i: nat, next: string)
    requires OccursAt(t, blk, i)
    requires next == t[..i] + blk + t[i + |blk|..]
    ensures next == t
  {
    assert t[i..i + |blk|] == blk;
    assert t == t[..i] + t[i..i + |blk|] + t[i + |blk|..];
  }

  /** Corrected, on a file that is nothing but the operation's own block: the run changes nothing. */
  lemma LoneBlockIsUpToDate(prefix: string, op: Op)
    requires Valid(op) && NoDollar(Block(prefix, op.name, op.patch)) && '/' !in Trim(op.patch)
    requires !AnchorHit(Block(prefix, op.name, op.patch), op)
    ensures Step(WholeLines, prefix, Block(prefix, op.name, op.patch), op)
         == Ok(Applied(Block(prefix, op.name, op.patch), UpToDate(op.name)))
  {
    var t := Block(prefix, op.name, op.patch);
    var i, j := LoneBlockIsFound(WholeLines, prefix, op.name, op.patch);
    assert OccursAt(t, t, i);
    RerunIsNoop(prefix, t, op, i, j);
  }

  /** The corrected search on the example of finding 1: the run leaves the file alone. */
  lemma RerunIsNoopExample()
    ensures Step(WholeLines, "header-auth", Block("header-auth", "a", "x"), ExampleOp)
         == Ok(Applied(Block("header-auth", "a", "x"), UpToDate("a")))
  {
    TrimOfPlainWord();
    NoDollarBlock("header-auth", "a", "x");
    LoneBlockIsUpToDate("header-auth", ExampleOp);
  }

  /**
   * As written: a label that is a prefix of another label finds that
   * label's block wherever it sits.
   */
  lemma PrefixLabelFindsOtherBlock(prefix: string, a: string, b: string, patch: string, t: string, p: nat)
    requires a <= b
    requires OccursAt(t, Block(prefix, b, patch), p)
    ensures HasSpan(t, BeginMarker(prefix, a), EndMarker(prefix, a))
  {
    var blk := Block(prefix, b, patch);
    var off := EndOffset(prefix, b, patch);
    BlockLayout(AsWritten, prefix, b, patch);
    assert BeginMarker(prefix, a) <= BeginMarker(prefix, b);
    assert EndMarker(prefix, a) <= EndMarker(prefix, b);
    PrefixOccurs(blk, BeginMarker(prefix, b), BeginMarker(prefix, a), 0);
    PrefixOccurs(blk, EndMarker(prefix, b), EndMarker(prefix, a), off);
    OccursInside(t, blk, p, BeginMarker(prefix, a), 0);
    OccursInside(t, blk, p, EndMarker(prefix, a), off);
    assert SpanAt(t, BeginMarker(prefix, a), EndMarker(prefix, a), p, p + off + |EndMarker(prefix, a)|);
  }

  lemma PrefixOccurs(t: string, long: string, short: string, k: nat)
    requires OccursAt(t, long, k) && short <= long
    ensures OccursAt(t, short, k)
  {
    assert t[k..k + |short|] == t[k..k + |long|][..|short|];
  }

  /**
   * As written, on a file that is nothing but the block of label `b`: the
   * operation for a label `a` that is a prefix of `b` replaces that whole
   * block by its own and leaves the rest of `b`'s end line behind it, so
   * both of `b`'s markers are gone.
   */
  lemma PrefixLabelClobbersBlock(prefix: string, op: Op, b: string, patch: string)
    requires Valid(op) && NoDollar(Block(prefix, op.name, op.patch))
    requires !AnchorHit(Block(prefix, b, patch), op)
    requires op.name <= b && '/' !in b[|op.name|..] && '/' !in Trim(patch)
    ensures Step(AsWritten, prefix, Block(prefix, b, patch), op)
         == Ok(Applied(Block(prefix, op.name, op.patch) + b[|op.name|..] + "\n", Updated(op.name)))
  {
    var a := op.name;
    var t := Block(prefix, b, patch);
    var i, j := PrefixLabelSpan(prefix, a, b, patch);
    MarkerPath(AsWritten, prefix, t, op, i, j);
    var blk := Block(prefix, a, op.patch);
    var next := Replace(t, i, j, blk);
    SpliceAtStart(t, blk, j, b[|a|..], "\n");
    UpToDateUnreachable(prefix, t, op);
  }

  /**
   * Where the as-written search for label `a` lands in the block of a label
   * `b` that extends it: from the start of the block to the end of `a`
   * inside `b`'s end marker.
   */
  lemma PrefixLabelSpan(prefix: string, a: string, b: string, patch: string) returns (i: nat, j: nat)
    requires a <= b && '/' !in b[|a|..] && '/' !in Trim(patch)
    ensures i == 0 && i <= j <= |Block(prefix, b, patch)|
    ensures IsLeftmostLazy(Block(prefix, b, patch), BeginNeedle(AsWritten, prefix, a), EndNeedle(AsWritten, prefix, a), i, j)
    ensures Block(prefix, b, patch)[j..] == b[|a|..] + "\n"
  {
    var t := Block(prefix, b, patch);
    var ba := BeginNeedle(AsWritten, prefix, a);
    var ea := EndNeedle(AsWritten, prefix, a);
    var off := EndOffset(prefix, b, patch);
    MarkersOfPrefixLabel(prefix, a, b, patch);
    PrefixLabelGap(prefix, a, b, patch);
    assert forall n | |ba| <= n < off :: !OccursAt(t, ea, n) by {
      BodyHasNoSlash(prefix, b, patch);
      EndNeedleStartsWithSlash(AsWritten, prefix, a);
      forall n | |ba| <= n < off
        ensures !OccursAt(t, ea, n)
      {
        if n < |BeginMarker(prefix, b)| {
          assert t[n] != '/';
        } else {
          assert t[n] != '/';
        }
        NoSlashNoNeedle(t, ea, n);
      }
    }
    i := 0;
    j := SpanIsExact(t, ba, ea, i, off);
    PrefixLabelTail(prefix, a, b, patch);
  }

  /** Replacing the first `j` characters by `blk`, when the rest is `x + y`. */
  lemma SpliceAtStart(t: string, blk: string, j: nat, x: string, y: string)
    requires j <= |t| && t[j..] == x + y
    ensures t[..0] + blk + t[j..] == blk + x + y
  {
    assert t[..0] == [];
  }

  /**
   * The markers of label `a` inside the block of a label `b` extending it:
   * `a`'s begin marker at the start and `a`'s end marker where `b`'s starts.
   */
  lemma MarkersOfPrefixLabel(prefix: string, a: string, b: string, patch: string)
    requires a <= b
    ensures OccursAt(Block(prefix, b, patch), BeginMarker(prefix, a), 0)
    ensures OccursAt(Block(prefix, b, patch), EndMarker(prefix, a), EndOffset(prefix, b, patch))
    ensures |BeginMarker(prefix, a)| <= |BeginMarker(prefix, b)| <= EndOffset(prefix, b, patch)
  {
    var t := Block(prefix, b, patch);
    var lead := "// " + prefix + " begin: ";
    var elead := "// " + prefix + " end: ";
    BlockLayout(AsWritten, prefix, b, patch);
    PrefixOccurs(t, lead + b, lead + a, 0);
    PrefixOccurs(t, elead + b, elead + a, EndOffset(prefix, b, patch));
  }

  /** The rest of `b`'s begin line after the label `a` holds no slash. */
  lemma PrefixLabelGap(prefix: string, a: string, b: string, patch: string)
    requires a <= b && '/' !in b[|a|..]
    ensures forall n | |BeginMarker(prefix, a)| <= n < |BeginMarker(prefix, b)| :: Block(prefix, b, patch)[n] != '/'
  {
    var lead := "// " + prefix + " begin: ";
    var rest := "\n" + Trim(patch) + "\n" + EndMarker(prefix, b) + "\n";
    AfterFirst(BeginMarker(prefix, b), Trim(patch), EndMarker(prefix, b));
    LabelTail(lead, a, b, rest);
  }

  /** After `a`'s end marker, the block of `b` holds the rest of `b`'s end line. */
  lemma PrefixLabelTail(prefix: string, a: string, b: string, patch: string)
    requires a <= b
    ensures EndOffset(prefix, b, patch) + |EndNeedle(AsWritten, prefix, a)| <= |Block(prefix, b, patch)|
    ensures Block(prefix, b, patch)[EndOffset(prefix, b, patch) + |EndNeedle(AsWritten, prefix, a)|..] == b[|a|..] + "\n"
  {
    TailAfterLabel(BeginMarker(prefix, b), Trim(patch), "// " + prefix + " end: ", a, b);
  }

  /** In a block laid out from `x`, `body` and the end line `elead + b`, what follows `elead + a`. */
  lemma TailAfterLabel(x: string, body: string, elead: string, a: string, b: string)
    requires a <= b
    ensures |x| + |body| + 2 + |elead + a| <= |x + "\n" + body + "\n" + (elead + b) + "\n"|
    ensures (x + "\n" + body + "\n" + (elead + b) + "\n")[|x| + |body| + 2 + |elead + a|..] == b[|a|..] + "\n"
  {
    var y := elead + b;
    var t := x + "\n" + body + "\n" + y + "\n";
    assert t[|x| + |body| + 2..] == y + "\n";
    assert (y + "\n")[|elead + a|..] == b[|a|..] + "\n";
    assert t[|x| + |body| + 2 + |elead + a|..] == (y + "\n")[|elead + a|..];
  }

  lemma AfterFirst(x: string, body: string, y: string)
    ensures x + "\n" + body + "\n" + y + "\n" == x + ("\n" + body + "\n" + y + "\n")
  {
  }

  /** In `lead + b + rest`, the characters after `lead + a` up to the end of `b` hold no slash. */
  lemma LabelTail(lead: string, a: string, b: string, rest: string)
    requires a <= b && '/' !in b[|a|..]
    ensures forall n | |lead + a| <= n < |lead + b| :: (lead + b + rest)[n] != '/'
  {
    forall n | |lead + a| <= n < |lead + b|
      ensures (lead + b + rest)[n] != '/'
    {
      assert (lead + b + rest)[n] == b[n - |lead|];
      assert b[n - |lead|] == b[|a|..][n - |lead| - |a|];
    }
  }



  /**
   * Input showing finding 2: on the file holding only
   * "// header-auth begin: ab\nx\n// header-auth end: ab\n", the operation
   * for label `a` leaves "// header-auth begin: a\nx\n// header-auth end: a\nb\n".
   */
  lemma PrefixLabelExample()
    ensures Step(AsWritten, "header-auth", Block("header-auth", "ab", "x"), ExampleOp)
         == Ok(Applied(Block("header-auth", "a", "x") + "b" + "\n", Updated("a")))
  {
    ExampleBlockFacts();
    ExampleLabels();
    PrefixLabelClobbersBlock("header-auth", ExampleOp, "ab", "x");
  }

  /** The block of the example operation has no `$`, and its body has no slash. */
  lemma ExampleBlockFacts()
    ensures NoDollar(Block("header-auth", "a", "x")) && Trim("x") == "x"
  {
    TrimOfPlainWord();
    NoDollarBlock("header-auth", "a", "x");
  }

  /** The example labels: `a` is a prefix of `ab`, and `b` is what is left. */
  lemma ExampleLabels()
    ensures "a" <= "ab" && "ab"[|"a"|..] == "b"
  {
  }

  /**
   * Corrected: with whole-line needles, the begin (or end) line of one label
   * never matches where the begin (or end) line of a different label sits,
   * for labels without newlines.
   */
  lemma WholeLinesSeparateLabels(prefix: string, a: string, b: string, t: string, p: nat)
    requires a != b && '\n' !in a && '\n' !in b
    ensures OccursAt(t, BeginNeedle(WholeLines, prefix, b), p) ==> !OccursAt(t, BeginNeedle(WholeLines, prefix, a), p)
    ensures OccursAt(t, EndNeedle(WholeLines, prefix, b), p) ==> !OccursAt(t, EndNeedle(WholeLines, prefix, a), p)
  {
    LineNeedlesDiffer("// " + prefix + " begin: ", a, b, t, p);
    LineNeedlesDiffer("// " + prefix + " end: ", a, b, t, p);
  }

  /**
   * Corrected, on a file that is nothing but the block of label `b`: the
   * operation for any other label finds no marker span there, so it
   * appends its own block (or fails on a declared anchor) and leaves the
   * block of `b` where it was.
   */
  lemma OtherLabelKeepsBlock(prefix: string, op: Op, b: string, patch: string)
    requires Valid(op) && op.name != b && '\n' !in op.name && '\n' !in b
    requires '/' !in prefix && '/' !in b && '/' !in Trim(patch)
    requires !AnchorHit(Block(prefix, b, patch), op)
    ensures Step(WholeLines, prefix, Block(prefix, b, patch), op)
         == if HasAnchor(op) then Err(AnchorNotFound(op.name))
            else Ok(Applied(TrimEnd(Block(prefix, b, patch)) + "\n" + Block(prefix, op.name, op.patch), Appended(op.name)))
  {
    var t := Block(prefix, b, patch);
    var ba := BeginNeedle(WholeLines, prefix, op.name);
    forall n: nat
      ensures !OccursAt(t, ba, n)
    {
      OtherBeginLineAbsent(prefix, op.name, b, patch, n);
    }
    assert !HasSpan(t, ba, EndNeedle(WholeLines, prefix, op.name));
    NoMarkerPath(WholeLines, prefix, t, op);
  }

  /** The corrected search on the example of finding 2: label `a` leaves the block of `ab` alone and appends its own. */
  lemma OtherLabelExample()
    ensures Step(WholeLines, "header-auth", Block("header-auth", "ab", "x"), ExampleOp)
         == Ok(Applied(TrimEnd(Block("header-auth", "ab", "x")) + "\n" + Block("header-auth", "a", "x"), Appended("a")))
  {
    TrimOfPlainWord();
    OtherLabelKeepsBlock("header-auth", ExampleOp, "ab", "x");
  }

  /** The whole begin line of label `a` occurs nowhere in the block of a different label `b`. */
  lemma OtherBeginLineAbsent(prefix: string, a: string, b: string, patch: string, n: nat)
    requires a != b && '\n' !in a && '\n' !in b
    requires '/' !in prefix && '/' !in b && '/' !in Trim(patch)
    ensures !OccursAt(Block(prefix, b, patch), BeginNeedle(WholeLines, prefix, a), n)
  {
    var t := Block(prefix, b, patch);
    var na := BeginNeedle(WholeLines, prefix, a);
    var off := EndOffset(prefix, b, patch);
    if n == 0 {
      BlockLayout(WholeLines, prefix, b, patch);
      LineNeedlesDiffer("// " + prefix + " begin: ", a, b, t, 0);
    } else if n == off {
      BeginLineNotAtEndLine(prefix, a, b, patch);
    } else if n + 1 < |t| {
      SlashPairs(prefix, b, patch, n);
      NeedsSlashPair(t, na, n);
    }
  }

  /** A begin line does not start where a block's end line starts. */
  lemma BeginLineNotAtEndLine(prefix: string, a: string, b: string, patch: string)
    ensures !OccursAt(Block(prefix, b, patch), BeginNeedle(WholeLines, prefix, a), EndOffset(prefix, b, patch))
  {
    var t := Block(prefix, b, patch);
    var na := BeginNeedle(WholeLines, prefix, a);
    var off := EndOffset(prefix, b, patch);
    EndLineLetter(prefix, b, patch);
    if OccursAt(t, na, off) {
      CharAt(t, na, off, |prefix| + 4);
    }
  }

  /** A needle starting with two slashes occurs only where the text has two slashes. */
  lemma NeedsSlashPair(t: string, s: string, n: nat)
    requires |s| >= 2 && s[0] == '/' && s[1] == '/'
    ensures OccursAt(t, s, n) ==> t[n] == '/' && t[n + 1] == '/'
  {
    if OccursAt(t, s, n) {
      CharAt(t, s, n, 0);
      CharAt(t, s, n, 1);
    }
  }

  /** Where the end line of a block has the `e` of "end", a begin line has the `b` of "begin". */
  lemma EndLineLetter(prefix: string, b: string, patch: string)
    ensures EndOffset(prefix, b, patch) + |prefix| + 4 < |Block(prefix, b, patch)|
    ensures Block(prefix, b, patch)[EndOffset(prefix, b, patch) + |prefix| + 4] == 'e'
    ensures forall a :: BeginMarker(prefix, a)[|prefix| + 4] == 'b'
  {
    var bm := BeginMarker(prefix, b);
    var mid := "\n" + Trim(patch) + "\n";
    var em := EndMarker(prefix, b);
    BlockParts(bm, Trim(patch), em);
    CharOfLast(bm, mid, em + "\n", |prefix| + 4);
    assert (em + "\n")[|prefix| + 4] == 'e';
  }

  /** The characters of the last part of `x + mid + y`. */
  lemma CharOfLast(x: string, mid: string, y: string, k: nat)
    requires k < |y|
    ensures (x + mid + y)[|x| + |mid| + k] == y[k]
  {
  }

  /**
   * Two slashes in a row start a marker line and nowhere else in a block,
   * when its prefix, label and body hold no slash.
   */
  lemma SlashPairs(prefix: string, b: string, patch: string, n: nat)
    requires '/' !in prefix && '/' !in b && '/' !in Trim(patch)
    requires n + 1 < |Block(prefix, b, patch)|
    ensures Block(prefix, b, patch)[n] == '/' && Block(prefix, b, patch)[n + 1] == '/'
        <==> n == 0 || n == EndOffset(prefix, b, patch)
  {
    var t := Block(prefix, b, patch);
    var bm := BeginMarker(prefix, b);
    var em := EndMarker(prefix, b);
    var off := EndOffset(prefix, b, patch);
    BodyHasNoSlash(prefix, b, patch);
    BlockEndLine(prefix, b, patch);
    BlockLayout(AsWritten, prefix, b, patch);
    MarkerSlashes(prefix, " begin: ", b, 0);
    MarkerSlashes(prefix, " begin: ", b, 1);
    MarkerSlashes(prefix, " end: ", b, 0);
    MarkerSlashes(prefix, " end: ", b, 1);
    CharAt(t, bm, 0, 0);
    CharAt(t, bm, 0, 1);
    CharAt(t, em, off, 0);
    CharAt(t, em, off, 1);
    if n < |bm| {
      CharAt(t, bm, 0, n);
      MarkerSlashes(prefix, " begin: ", b, n);
      if n + 1 < |bm| {
        CharAt(t, bm, 0, n + 1);
        MarkerSlashes(prefix, " begin: ", b, n + 1);
      }
    } else if off <= n {
      var k := n - off;
      CharAt(t, em, off, k);
      MarkerSlashes(prefix, " end: ", b, k);
      if k + 1 < |em| {
        CharAt(t, em, off, k + 1);
        MarkerSlashes(prefix, " end: ", b, k + 1);
      } else {
        assert t[n + 1] == t[off..][k + 1] == '\n';
      }
    }
  }

  /** A marker line holds a slash in its first two places and nowhere else, when its prefix and label hold none. */
  lemma MarkerSlashes(prefix: string, kind: string, name: string, k: nat)
    requires kind == " begin: " || kind == " end: "
    requires '/' !in prefix && '/' !in name
    requires k < |"// " + prefix + kind + name|
    ensures ("// " + prefix + kind + name)[k] == '/' <==> k < 2
  {
    var m := "// " + prefix + kind + name;
    if k < 3 {
      assert m[k] == "// "[k];
    } else if k < 3 + |prefix| {
      assert m[k] == prefix[k - 3];
    } else if k < 3 + |prefix| + |kind| {
      assert m[k] == kind[k - 3 - |prefix|];
    } else {
      assert m[k] == name[k - 3 - |prefix| - |kind|];
    }
  }

  /**
   * Two lines `lead + a` and `lead + b`, each with its newline, starting at
   * the same place carry the same label, when neither label holds a newline.
   */
  lemma LineNeedlesDiffer(lead: string, a: string, b: string, t: string, p: nat)
    requires '\n' !in a && '\n' !in b
    ensures OccursAt(t, lead + b + "\n", p) && OccursAt(t, lead + a + "\n", p) ==> a == b
  {
    var la := lead + a + "\n";
    var lb := lead + b + "\n";
    if OccursAt(t, lb, p) && OccursAt(t, la, p) {
      if |a| < |b| {
        CharAt(t, la, p, |lead| + |a|);
      } else if |b| < |a| {
        CharAt(t, la, p, |lead| + |b|);
      } else {
        assert la == t[p..p + |la|] == lb;
        assert a == la[|lead|..|lead| + |a|];
        assert b == lb[|lead|..|lead| + |b|];
      }
    }
  }

  lemma CharAt(t: string, s: string, p: nat, k: nat)
    requires OccursAt(t, s, p) && k < |s|
    ensures t[p + k] == s[k]
  {
    assert t[p..p + |s|][k] == s[k];
  }
}
