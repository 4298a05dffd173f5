/**
 * The vocabulary of the crate root that the text module builds on: the
 * algorithm selector, diff ops, changes, and the crate-level functions
 * `capture_diff_slices`, `group_diff_ops`, `DiffOp::iter_changes` and
 * `get_diff_ratio`.  Their code is not part of this model, so they are
 * carried as the fields of an `Engine` value that every operation using them
 * receives as a parameter; nothing is assumed about what they compute.
 */
module Similar {
  import opened Wrappers

  /** Selects the sequence matcher strategy. */
  datatype Algorithm = Myers | Patience

  /** `Algorithm::default()`, documented as Myers. */
  const DefaultAlgorithm: Algorithm := Myers

  /** One op of an edit script: index ranges into the old and new sequences. */
  datatype DiffOp =
    | Equal(oldIndex: nat, newIndex: nat, len: nat)
    | Delete(oldIndex: nat, oldLen: nat, newIndex: nat)
    | Insert(oldIndex: nat, newIndex: nat, newLen: nat)
    | Replace(oldIndex: nat, oldLen: nat, newIndex: nat, newLen: nat)

  datatype ChangeTag = Unchanged | Removed | Added

  /** One token of a diff: its tag, its indices on either side and its value. */
  datatype Change<T> = Change(tag: ChangeTag, oldIndex: Option<nat>, newIndex: Option<nat>, value: T)

  /** The crate-level functions the text module calls. */
  datatype Engine<!T> = Engine(
    captureDiffSlices: (Algorithm, seq<T>, seq<T>) -> seq<DiffOp>,
    groupDiffOps: (seq<DiffOp>, nat) -> seq<seq<DiffOp>>,
    iterChanges: (DiffOp, seq<T>, seq<T>) -> seq<Change<T>>,
    getDiffRatio: (seq<DiffOp>, nat, nat) -> real)
}
