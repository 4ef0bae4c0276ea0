/** The vocabulary of the patch engine: operations, thrown errors and log events. */
module Ops {
  import opened Results

  /**
   * One `{label, remove?, patch}` operation; `name` holds its `label`. JavaScript tests `remove` for
   * truthiness, so `Some("")` behaves exactly like an absent anchor.
   */
  datatype Op = Op(name: string, remove: Option<string>, patch: string)

  /** The errors `patchSource` and `wrapWithMarker` throw, one constructor per message. */
  datatype Error =
    | PathUndefined               // "Expected file path to be defined."
    | LabelRequired               // "Operations require a label"
    | PatchRequired(name: string) // "Operation '<label>' must provide patch content"
    | WrapLabelRequired           // "wrapWithMarker requires a label"
    | WrapPatchRequired(name: string) // "wrapWithMarker requires patch content for <label>"
    | AnchorNotFound(name: string)    // "[fail] <file>: cannot locate anchor for <label>"

  /** The console lines the engine prints, reduced to their kind and label. */
  datatype Event =
    | Inserted(name: string)   // "[ok] ...: <label> inserted"
    | Updated(name: string)    // "[ok] ...: <label> updated"
    | UpToDate(name: string)   // "[skip] ...: <label> already up-to-date"
    | Appended(name: string)   // "[ok] ...: <label> appended"
    | NoChanges                 // "[noop] ...: no changes needed"
    | Skipped(file: string)     // "Skipping <file> (not found)"
  {
    /** The outcomes after which the engine sets its `changed` flag. */
    predicate Changes() {
      Inserted? || Updated? || Appended?
    }
  }

  /** Both required fields are present (non-empty strings are the truthy ones). */
  predicate Valid(op: Op) {
    op.name != [] && op.patch != []
  }

  /** The operation names a legacy anchor to replace. */
  predicate HasAnchor(op: Op) {
    op.remove.Some? && op.remove.value != []
  }
}
