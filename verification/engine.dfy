/**
 * The patch engine `patchSource`: a fold of one step per operation over the
 * file's text, then a single write when some step changed it. The sentinel
 * prefix is a parameter; the two source files differ only in where it
 * comes from.
 */
module Engine {
  import opened Results
  import opened Text
  import opened Ops
  import opened Markers

  /** The text after one operation and the line it logs. */
  datatype Applied = Applied(text: string, event: Event)

  /** The anchor path fires: the operation names an anchor that the text contains. */
  predicate AnchorHit(text: string, op: Op) {
    HasAnchor(op) && Contains(text, op.remove.value)
  }

  /**
   * One iteration of the loop in `patchSource`: validation, then the anchor
   * path, then the marker path, then the anchor-missing failure or the
   * append path, in that order of precedence.
   */
  function Step(m: Matching, prefix: string, text: string, op: Op): (r: Result<Applied, Error>)
    ensures op.name == [] ==> r == Err(LabelRequired)
    ensures op.name != [] && op.patch == [] ==> r == Err(PatchRequired(op.name))
  {
    if op.name == [] then Err(LabelRequired)
    else if op.patch == [] then Err(PatchRequired(op.name))
    else
      var block := WrapWithMarker(prefix, op.name, op.patch).value;
      var anchor := if HasAnchor(op) then IndexOf(text, op.remove.value) else None;
      if anchor.Some? then
        Ok(Applied(Replace(text, anchor.value, anchor.value + |op.remove.value|, block), Inserted(op.name)))
      else MarkerOrAppend(m, prefix, text, op, block)
  }

  /** The marker path, else the anchor-missing failure or the append path. */
  function MarkerOrAppend(m: Matching, prefix: string, text: string, op: Op, block: string): Result<Applied, Error> {
    match FindSpan(text, BeginNeedle(m, prefix, op.name), EndNeedle(m, prefix, op.name))
    case Some((i, j)) =>
      var next := Replace(text, i, j, block);
      if next == text then Ok(Applied(text, UpToDate(op.name))) else Ok(Applied(next, Updated(op.name)))
    case None =>
      if HasAnchor(op) then Err(AnchorNotFound(op.name))
      else Ok(Applied(TrimEnd(text) + "\n" + block, Appended(op.name)))
  }

  /**
   * Anchor path: it is tried first, and only the first occurrence of the
   * anchor gives way to the block; the text around it is kept.
   */
  lemma AnchorPath(m: Matching, prefix: string, text: string, op: Op, i: nat)
    requires Valid(op) && HasAnchor(op)
    requires IsFirstFrom(text, op.remove.value, 0, i)
    ensures Step(m, prefix, text, op)
         == Ok(Applied(Replace(text, i, i + |op.remove.value|, Block(prefix, op.name, op.patch)), Inserted(op.name)))
  {
    FirstIsFound(text, op.remove.value, i);
  }

  /**
   * Marker path: without an anchor hit, the leftmost shortest marker span
   * gives way to the block and nothing is appended; the result counts as a
   * change unless it is byte-identical to the text.
   */
  lemma MarkerPath(m: Matching, prefix: string, text: string, op: Op, i: nat, j: nat)
    requires Valid(op) && !AnchorHit(text, op)
    requires IsLeftmostLazy(text, BeginNeedle(m, prefix, op.name), EndNeedle(m, prefix, op.name), i, j)
    ensures i <= j <= |text|
    ensures
      var next := Replace(text, i, j, Block(prefix, op.name, op.patch));
      Step(m, prefix, text, op)
      == Ok(if next == text then Applied(text, UpToDate(op.name)) else Applied(next, Updated(op.name)))
  {
    var b := BeginNeedle(m, prefix, op.name);
    var e := EndNeedle(m, prefix, op.name);
    var blk := Block(prefix, op.name, op.patch);
    LeftmostIsUnique(text, b, e, i, j);
    assert HasSpan(text, b, e);
    var found := FindSpan(text, b, e);
    assert found == Some((i, j));
    assert HasAnchor(op) ==> IndexOf(text, op.remove.value).None?;
    assert Step(m, prefix, text, op) == MarkerOrAppend(m, prefix, text, op, blk);
  }

  /**
   * Neither anchor nor marker: a declared anchor makes the operation throw;
   * without one, the block is appended after the trimmed text and a newline.
   */
  lemma NoMarkerPath(m: Matching, prefix: string, text: string, op: Op)
    requires Valid(op) && !AnchorHit(text, op)
    requires !HasSpan(text, BeginNeedle(m, prefix, op.name), EndNeedle(m, prefix, op.name))
    ensures Step(m, prefix, text, op)
         == if HasAnchor(op) then Err(AnchorNotFound(op.name))
            else Ok(Applied(TrimEnd(text) + "\n" + Block(prefix, op.name, op.patch), Appended(op.name)))
  {
    assert HasAnchor(op) ==> IndexOf(text, op.remove.value).None?;
  }

  /** `indexOf` reports the first occurrence. */
  lemma FirstIsFound(s: string, pat: string, i: nat)
    requires IsFirstFrom(s, pat, 0, i)
    ensures IndexOf(s, pat) == Some(i)
  {
    assert Contains(s, pat) by {
      assert OccursAt(s, pat, i);
    }
    FirstIsUnique(s, pat, 0, i);
  }

  lemma FirstIsUnique(s: string, pat: string, from: int, i: int)
    requires IsFirstFrom(s, pat, from, i)
    ensures forall k | IsFirstFrom(s, pat, from, k) :: k == i
  {
  }

  lemma LeftmostIsUnique(s: string, b: string, e: string, i: int, j: int)
    requires IsLeftmostLazy(s, b, e, i, j)
    ensures forall i', j' | IsLeftmostLazy(s, b, e, i', j') :: i' == i && j' == j
  {
  }

  /** What one iteration of the loop does to the text, as a value. */
  type StepFn = (string, Op) -> Result<Applied, Error>

  /** The loop body of `patchSource` for a given matching and sentinel prefix. */
  function EngineStep(m: Matching, prefix: string): StepFn {
    (text: string, op: Op) => Step(m, prefix, text, op)
  }

  /** The in-memory state of the loop: `source`, `changed`, and the lines logged so far. */
  datatype State = State(text: string, changed: bool, log: seq<Event>)

  /** The loop either finishes or throws; lines logged before a throw stay logged. */
  datatype FoldResult = Done(state: State) | Failed(error: Error, log: seq<Event>)

  ghost predicate SomeChange(log: seq<Event>, from: nat) {
    exists k | from <= k < |log| :: log[k].Changes()
  }

  lemma SomeChangeSnoc(log: seq<Event>, ev: Event)
    ensures SomeChange(log + [ev], 0) <==> SomeChange(log, 0) || ev.Changes()
  {
    assert (log + [ev])[|log|] == ev;
    assert forall k | 0 <= k < |log| :: (log + [ev])[k] == log[k];
  }

  /**
   * The `for (const op of operations)` loop from state `st`: one logged line
   * per completed operation, stopping at the first throw; `changed` ends up
   * set exactly when some completed operation logged a change.
   */
  function Fold(step: StepFn, st: State, ops: seq<Op>): (r: FoldResult)
    ensures r.Done? ==> |r.state.log| == |st.log| + |ops| && r.state.log[..|st.log|] == st.log
    ensures r.Done? ==> (r.state.changed <==> st.changed || SomeChange(r.state.log, |st.log|))
    ensures r.Failed? ==> |st.log| <= |r.log| < |st.log| + |ops| && r.log[..|st.log|] == st.log
    decreases |ops|
  {
    if ops == [] then Done(st)
    else
      match step(st.text, ops[0])
      case Err(e) => Failed(e, st.log)
      case Ok(a) =>
        var next := State(a.text, st.changed || a.event.Changes(), st.log + [a.event]);
        var r := Fold(step, next, ops[1..]);
        assert r.Done? ==> r.state.log[|st.log|] == a.event by {
          if r.Done? {
            assert r.state.log[..|next.log|][|st.log|] == next.log[|st.log|];
          }
        }
        assert r.Done? ==> r.state.log[..|st.log|] == st.log by {
          if r.Done? {
            assert r.state.log[..|st.log|] == r.state.log[..|next.log|][..|st.log|];
          }
        }
        assert r.Failed? ==> r.log[..|st.log|] == st.log by {
          if r.Failed? {
            assert r.log[..|st.log|] == r.log[..|next.log|][..|st.log|];
          }
        }
        r
  }

  /** The step throws on every operation without a label or patch content. */
  ghost predicate ValidatesOps(step: StepFn) {
    forall text, op | !Valid(op) :: step(text, op).Err?
  }

  lemma EngineValidates(m: Matching, prefix: string)
    ensures ValidatesOps(EngineStep(m, prefix))
  {
    forall text, op | !Valid(op)
      ensures EngineStep(m, prefix)(text, op).Err?
    {
      assert EngineStep(m, prefix)(text, op) == Step(m, prefix, text, op);
    }
  }

  /**
   * Operations are validated one by one inside the loop, so an operation
   * without a label or patch content makes the whole run throw, whatever
   * its position.
   */
  lemma {:induction false} InvalidOpFails(step: StepFn, st: State, ops: seq<Op>, k: nat)
    requires ValidatesOps(step)
    requires k < |ops| && !Valid(ops[k])
    ensures Fold(step, st, ops).Failed?
    decreases k
  {
    if k > 0 {
      match step(st.text, ops[0])
      case Err(_) =>
      case Ok(a) =>
        var next := State(a.text, st.changed || a.event.Changes(), st.log + [a.event]);
        InvalidOpFails(step, next, ops[1..], k - 1);
    }
  }

  lemma ConcatOccurs(x: string, y: string, z: string)
    ensures OccursAt(x + y + z, y, |x|)
  {
    assert (x + y + z)[|x|..|x| + |y|] == y;
  }

  /**
   * Once an operation has succeeded, running it again on the result neither
   * throws nor appends a second block: it goes through the anchor path or
   * updates a marked block. The anchor path comes first, so a rerun still
   * inserts a second block wherever the anchor occurs again
   * (`RerunCanDuplicate`); without that, the rerun updates in place
   * (`RerunUpdatesInPlace`).
   */
  lemma RerunNeverAppends(m: Matching, prefix: string, text: string, op: Op)
    requires Step(m, prefix, text, op).Ok?
    requires NoDollar(Block(prefix, op.name, op.patch))
    ensures Step(m, prefix, Step(m, prefix, text, op).value.text, op).Ok?
    ensures !Step(m, prefix, Step(m, prefix, text, op).value.text, op).value.event.Appended?
  {
    var blk := Block(prefix, op.name, op.patch);
    var b := BeginNeedle(m, prefix, op.name);
    var e := EndNeedle(m, prefix, op.name);
    var t := Step(m, prefix, text, op).value.text;
    var p: nat := BlockPlacement(m, prefix, text, op);
    BlockIsRediscovered(m, t, p, prefix, op.name, op.patch);
    if AnchorHit(t, op) {
      var i := IndexOf(t, op.remove.value).value;
      AnchorPath(m, prefix, t, op, i);
    } else {
      var (i, j) := FindSpan(t, b, e).value;
      MarkerPath(m, prefix, t, op, i, j);
    }
  }

  /**
   * A rerun whose anchor no longer occurs adds no block: it takes the marker
   * path and overwrites the leftmost marker span, which starts no later
   * than the block the first run left at `p`.
   */
  lemma RerunUpdatesInPlace(m: Matching, prefix: string, text: string, op: Op) returns (p: nat, i: nat, j: nat)
    requires Step(m, prefix, text, op).Ok?
    requires NoDollar(Block(prefix, op.name, op.patch))
    requires !AnchorHit(Step(m, prefix, text, op).value.text, op)
    ensures
      var t := Step(m, prefix, text, op).value.text;
      && OccursAt(t, Block(prefix, op.name, op.patch), p)
      && i <= p && i <= j <= |t|
      && IsLeftmostLazy(t, BeginNeedle(m, prefix, op.name), EndNeedle(m, prefix, op.name), i, j)
      && Step(m, prefix, t, op).Ok?
      && Step(m, prefix, t, op).value.text == t[..i] + Block(prefix, op.name, op.patch) + t[j..]
      && (Step(m, prefix, t, op).value.event.Updated? || Step(m, prefix, t, op).value.event.UpToDate?)
  {
    p := BlockPlacement(m, prefix, text, op);
    i, j := OwnBlockIsUpdated(m, prefix, Step(m, prefix, text, op).value.text, op, p);
  }

  /** A text holding the operation's block, and not its anchor, takes the marker path at or before the block. */
  lemma OwnBlockIsUpdated(m: Matching, prefix: string, t: string, op: Op, p: nat) returns (i: nat, j: nat)
    requires Valid(op) && NoDollar(Block(prefix, op.name, op.patch)) && !AnchorHit(t, op)
    requires OccursAt(t, Block(prefix, op.name, op.patch), p)
    ensures i <= p && i <= j <= |t|
    ensures IsLeftmostLazy(t, BeginNeedle(m, prefix, op.name), EndNeedle(m, prefix, op.name), i, j)
    ensures Step(m, prefix, t, op).Ok?
    ensures Step(m, prefix, t, op).value.text == t[..i] + Block(prefix, op.name, op.patch) + t[j..]
    ensures Step(m, prefix, t, op).value.event.Updated? || Step(m, prefix, t, op).value.event.UpToDate?
  {
    var blk := Block(prefix, op.name, op.patch);
    var b := BeginNeedle(m, prefix, op.name);
    var e := EndNeedle(m, prefix, op.name);
    var off := EndOffset(prefix, op.name, op.patch);
    BlockLayout(m, prefix, op.name, op.patch);
    OccursInside(t, blk, p, b, 0);
    OccursInside(t, blk, p, e, off);
    assert SpanAt(t, b, e, p, p + off + |e|);
    i, j := FindSpan(t, b, e).value.0, FindSpan(t, b, e).value.1;
    MarkerPath(m, prefix, t, op, i, j);
  }

  /**
   * The anchor path comes before the marker path, so an operation whose
   * anchor occurs after its own block inserts a second copy of the block
   * there, and both copies stay in the text.
   */
  lemma RerunCanDuplicate(m: Matching, prefix: string, t: string, op: Op, p: nat, i: nat)
    requires Valid(op) && HasAnchor(op) && NoDollar(Block(prefix, op.name, op.patch))
    requires OccursAt(t, Block(prefix, op.name, op.patch), p) && p + |Block(prefix, op.name, op.patch)| <= i
    requires IsFirstFrom(t, op.remove.value, 0, i)
    ensures Step(m, prefix, t, op).Ok? && Step(m, prefix, t, op).value.event == Inserted(op.name)
    ensures OccursAt(Step(m, prefix, t, op).value.text, Block(prefix, op.name, op.patch), p)
    ensures OccursAt(Step(m, prefix, t, op).value.text, Block(prefix, op.name, op.patch), i)
  {
    var blk := Block(prefix, op.name, op.patch);
    var a := op.remove.value;
    AnchorPath(m, prefix, t, op, i);
    var next := t[..i] + blk + t[i + |a|..];
    ConcatOccurs(t[..i], blk, t[i + |a|..]);
    assert next[p..p + |blk|] == t[..i][p..p + |blk|] == t[p..p + |blk|];
  }

  /** Where a successful step leaves its block in the text (when the block holds no `$`). */
  lemma BlockPlacement(m: Matching, prefix: string, text: string, op: Op) returns (p: nat)
    requires Step(m, prefix, text, op).Ok?
    requires NoDollar(Block(prefix, op.name, op.patch))
    ensures OccursAt(Step(m, prefix, text, op).value.text, Block(prefix, op.name, op.patch), p)
  {
    var blk := Block(prefix, op.name, op.patch);
    var b := BeginNeedle(m, prefix, op.name);
    var e := EndNeedle(m, prefix, op.name);
    if AnchorHit(text, op) {
      var a := op.remove.value;
      var i := IndexOf(text, a).value;
      AnchorPath(m, prefix, text, op, i);
      ConcatOccurs(text[..i], blk, text[i + |a|..]);
      p := i;
    } else if HasSpan(text, b, e) {
      var (i, j) := FindSpan(text, b, e).value;
      MarkerPath(m, prefix, text, op, i, j);
      var next := Replace(text, i, j, blk);
      ConcatOccurs(text[..i], blk, text[j..]);
      p := i;
    } else {
      NoMarkerPath(m, prefix, text, op);
      ConcatOccurs(TrimEnd(text) + "\n", blk, []);
      assert TrimEnd(text) + "\n" + blk + [] == TrimEnd(text) + "\n" + blk;
      p := |TrimEnd(text)| + 1;
    }
  }

  /** The file system as far as the engine sees it: contents by path, and a count of writes. */
  datatype FileStore = FileStore(files: map<string, string>, writes: nat)

  /** What a call leaves behind: the file system, the console lines, and the error it threw if any. */
  datatype Outcome = Outcome(fs: FileStore, log: seq<Event>, thrown: Option<Error>)

  /**
   * `patchSource({file, operations})`: an empty path throws, a missing file
   * is skipped, and otherwise the loop runs over the file's text; the file
   * is written once at the end if some operation changed it, and never if an
   * operation threw or none changed it. The loop body is `step`, which is
   * `EngineStep(AsWritten, prefix)` for the source's own engines.
   */
  method PatchSource(step: StepFn, fs: FileStore, file: string, ops: seq<Op>) returns (out: Outcome)
    ensures file == [] ==> out == Outcome(fs, [], Some(PathUndefined))
    ensures file != [] && file !in fs.files ==> out == Outcome(fs, [Skipped(file)], None)
    ensures file != [] && file in fs.files ==>
      match Fold(step, State(fs.files[file], false, []), ops)
      case Failed(e, log) => out == Outcome(fs, log, Some(e))
      case Done(st) =>
        out == if st.changed then Outcome(FileStore(fs.files[file := st.text], fs.writes + 1), st.log, None)
               else Outcome(fs, st.log + [NoChanges], None)
    ensures out.thrown.Some? ==> out.fs == fs
    ensures out.fs.files.Keys == fs.files.Keys
    ensures out.fs.writes == fs.writes || out.fs.writes == fs.writes + 1
    ensures out.fs.writes == fs.writes + 1 <==> out.thrown.None? && SomeChange(out.log, 0)
    ensures out.fs.writes == fs.writes ==> out.fs == fs
    ensures file in fs.files && ValidatesOps(step) && (exists k | 0 <= k < |ops| :: !Valid(ops[k])) ==>
      out.thrown.Some? && out.fs == fs
  {
    if file == [] {
      return Outcome(fs, [], Some(PathUndefined));
    }
    if file !in fs.files {
      return Outcome(fs, [Skipped(file)], None);
    }
    if ValidatesOps(step) && exists k | 0 <= k < |ops| :: !Valid(ops[k]) {
      var k :| 0 <= k < |ops| && !Valid(ops[k]);
      InvalidOpFails(step, State(fs.files[file], false, []), ops, k);
    }
    var r := RunLoop(step, fs.files[file], ops);
    match r
    case Failed(e, log) =>
      out := Outcome(fs, log, Some(e));
    case Done(st) =>
      if st.changed {
        out := Outcome(FileStore(fs.files[file := st.text], fs.writes + 1), st.log, None);
      } else {
        SomeChangeSnoc(st.log, NoChanges);
        out := Outcome(fs, st.log + [NoChanges], None);
      }
  }

  /**
   * The `for` loop of `patchSource` run statement by statement: it ends
   * where the recursive `Fold` says, with `changed` set exactly when a
   * logged event was a change.
   */
  method RunLoop(step: StepFn, text: string, ops: seq<Op>) returns (r: FoldResult)
    ensures r == Fold(step, State(text, false, []), ops)
    ensures r.Done? ==> (r.state.changed <==> SomeChange(r.state.log, 0))
  {
    var source := text;
    var changed := false;
    var log: seq<Event> := [];
    var k := 0;
    while k < |ops|
      invariant k <= |ops|
      invariant Fold(step, State(text, false, []), ops) == Fold(step, State(source, changed, log), ops[k..])
      invariant changed <==> SomeChange(log, 0)
    {
      var applied := step(source, ops[k]);
      assert ops[k..][1..] == ops[k + 1..];
      if applied.Err? {
        return Failed(applied.error, log);
      }
      SomeChangeSnoc(log, applied.value.event);
      source := applied.value.text;
      log := log + [applied.value.event];
      changed := changed || applied.value.event.Changes();
      k := k + 1;
    }
    assert ops[k..] == [];
    r := Done(State(source, changed, log));
  }
}
