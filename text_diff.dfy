/**
 * The text diffing front end: the `TextDiffConfig` builder, the `diff_*`
 * entry points that tokenize two texts and capture their diff ops, and the
 * `TextDiff` session with its queries.
 *
 * Tokenization and the crate-level matcher are not part of this model; they
 * arrive as a `Tokenizer` and an `Engine` value.
 */
module TextDiffs {
  import opened Wrappers
  import opened Similar

  /** The tokenizers of `DiffableStr`, each splitting a text into slices. */
  datatype Tokenizer = Tokenizer(
    tokenizeLines: string -> seq<string>,
    tokenizeWords: string -> seq<string>,
    tokenizeChars: string -> seq<string>,
    tokenizeUnicodeWords: string -> seq<string>,
    tokenizeGraphemes: string -> seq<string>)

  /**
   * A diff session.  It is never changed after construction, and its
   * accessors `algorithm()`, `newline_terminated()`, `old_slices()`,
   * `new_slices()` and `ops()` return the stored fields, so they are this
   * datatype's destructors.
   */
  datatype TextDiff<!T> = TextDiff(
    oldSlices: seq<T>,
    newSlices: seq<T>,
    ops: seq<DiffOp>,
    newlineTerminated: bool,
    algorithm: Algorithm)
  {
    /** `ratio()`: the crate's ratio of the stored ops over the two lengths. */
    function Ratio(e: Engine<T>): real {
      e.getDiffRatio(ops, |oldSlices|, |newSlices|)
    }

    /** `iter_changes(op)`: the op expanded against the stored slices. */
    function IterChanges(e: Engine<T>, op: DiffOp): seq<Change<T>> {
      e.iterChanges(op, oldSlices, newSlices)
    }

    /** `grouped_ops(n)`: the stored ops grouped with context radius `n`. */
    function GroupedOps(e: Engine<T>, n: nat): seq<seq<DiffOp>> {
      e.groupDiffOps(ops, n)
    }

    /** `iter_all_changes()`: the changes of every stored op, op after op. */
    function IterAllChanges(e: Engine<T>): seq<Change<T>> {
      FlatChanges(e, ops, oldSlices, newSlices)
    }
  }

  /** `ops.iter().flat_map(|op| op.iter_changes(old, new))`, materialised. */
  function FlatChanges<T>(e: Engine<T>, ops: seq<DiffOp>, oldSlices: seq<T>, newSlices: seq<T>): seq<Change<T>>
  {
    if ops == [] then []
    else e.iterChanges(ops[0], oldSlices, newSlices) + FlatChanges(e, ops[1..], oldSlices, newSlices)
  }

  /** Flattening distributes over concatenation of op lists. */
  lemma {:induction false} FlatChangesAppend<T>(e: Engine<T>, a: seq<DiffOp>, b: seq<DiffOp>, oldSlices: seq<T>, newSlices: seq<T>)
    ensures FlatChanges(e, a + b, oldSlices, newSlices)
         == FlatChanges(e, a, oldSlices, newSlices) + FlatChanges(e, b, oldSlices, newSlices)
  {
    if a != [] {
      assert (a + b)[0] == a[0] && (a + b)[1..] == a[1..] + b;
      FlatChangesAppend(e, a[1..], b, oldSlices, newSlices);
    } else {
      assert a + b == b;
    }
  }

  /** A change occurs in the flattened list exactly when some op expands to it. */
  lemma {:induction false} FlatChangesMembership<T>(e: Engine<T>, ops: seq<DiffOp>, oldSlices: seq<T>, newSlices: seq<T>, c: Change<T>)
    ensures c in FlatChanges(e, ops, oldSlices, newSlices)
        <==> exists k :: 0 <= k < |ops| && c in e.iterChanges(ops[k], oldSlices, newSlices)
  {
    if ops != [] {
      FlatChangesMembership(e, ops[1..], oldSlices, newSlices, c);
      if c in FlatChanges(e, ops[1..], oldSlices, newSlices) {
        var k :| 0 <= k < |ops[1..]| && c in e.iterChanges(ops[1..][k], oldSlices, newSlices);
        assert c in e.iterChanges(ops[k + 1], oldSlices, newSlices);
      }
      if exists k :: 0 <= k < |ops| && c in e.iterChanges(ops[k], oldSlices, newSlices) {
        var k :| 0 <= k < |ops| && c in e.iterChanges(ops[k], oldSlices, newSlices);
        if k > 0 {
          assert ops[1..][k - 1] == ops[k];
        }
      }
    }
  }

  /**
   * The private `TextDiffConfig::diff`, on the config's two fields: capture
   * the ops with the configured algorithm and resolve the newline flag, the
   * override winning over the entry point's default.
   */
  function Capture<T>(algorithm: Algorithm, newlineOverride: Option<bool>, oldSlices: seq<T>, newSlices: seq<T>,
                      newlineDefault: bool, e: Engine<T>): (d: TextDiff<T>)
    ensures d.oldSlices == oldSlices && d.newSlices == newSlices
    ensures d.algorithm == algorithm
    ensures d.ops == e.captureDiffSlices(algorithm, oldSlices, newSlices)
    ensures newlineOverride.Some? ==> d.newlineTerminated == newlineOverride.value
    ensures newlineOverride.None? ==> d.newlineTerminated == newlineDefault
  {
    TextDiff(oldSlices, newSlices, e.captureDiffSlices(algorithm, oldSlices, newSlices),
             newlineOverride.UnwrapOr(newlineDefault), algorithm)
  }

  /** A session built from a config answers every query from what it stored. */
  lemma CapturedQueries<T>(algorithm: Algorithm, newlineOverride: Option<bool>, oldSlices: seq<T>, newSlices: seq<T>,
                           newlineDefault: bool, e: Engine<T>, n: nat, op: DiffOp)
    ensures var d := Capture(algorithm, newlineOverride, oldSlices, newSlices, newlineDefault, e);
      && d.Ratio(e) == e.getDiffRatio(e.captureDiffSlices(algorithm, oldSlices, newSlices), |oldSlices|, |newSlices|)
      && d.GroupedOps(e, n) == e.groupDiffOps(e.captureDiffSlices(algorithm, oldSlices, newSlices), n)
      && d.IterChanges(e, op) == e.iterChanges(op, oldSlices, newSlices)
      && d.IterAllChanges(e) == FlatChanges(e, e.captureDiffSlices(algorithm, oldSlices, newSlices), oldSlices, newSlices)
  {
  }

  /** The builder: an algorithm and an optional newline-termination override. */
  class TextDiffConfig {
    var algorithm: Algorithm
    var newlineTerminated: Option<bool>

    /** `TextDiffConfig::default()`. */
    constructor Default()
      ensures algorithm == Myers && newlineTerminated == None
    {
      algorithm := DefaultAlgorithm;
      newlineTerminated := None;
    }

    /** `algorithm(alg)`: changes the algorithm only; returns the builder for chaining. */
    method SetAlgorithm(alg: Algorithm) returns (self: TextDiffConfig)
      modifies this
      ensures algorithm == alg && newlineTerminated == old(newlineTerminated)
      ensures self == this
    {
      algorithm := alg;
      self := this;
    }

    /** `newline_terminated(yes)`: sets the override only; returns the builder for chaining. */
    method SetNewlineTerminated(yes: bool) returns (self: TextDiffConfig)
      modifies this
      ensures newlineTerminated == Some(yes) && algorithm == old(algorithm)
      ensures self == this
    {
      newlineTerminated := Some(yes);
      self := this;
    }

    /** `diff_lines`: line tokens, newline-terminated unless overridden. */
    function DiffLines(oldText: string, newText: string, tk: Tokenizer, e: Engine<string>): (d: TextDiff<string>)
      reads this
      ensures d.oldSlices == tk.tokenizeLines(oldText) && d.newSlices == tk.tokenizeLines(newText)
      ensures d.algorithm == algorithm && d.ops == e.captureDiffSlices(algorithm, d.oldSlices, d.newSlices)
      ensures d.newlineTerminated == (newlineTerminated.None? || newlineTerminated.value)
    {
      Capture(algorithm, newlineTerminated, tk.tokenizeLines(oldText), tk.tokenizeLines(newText), true, e)
    }

    /** `diff_words`: word and whitespace tokens, not newline-terminated unless overridden. */
    function DiffWords(oldText: string, newText: string, tk: Tokenizer, e: Engine<string>): (d: TextDiff<string>)
      reads this
      ensures d.oldSlices == tk.tokenizeWords(oldText) && d.newSlices == tk.tokenizeWords(newText)
      ensures d.algorithm == algorithm && d.ops == e.captureDiffSlices(algorithm, d.oldSlices, d.newSlices)
      ensures d.newlineTerminated == (newlineTerminated.Some? && newlineTerminated.value)
    {
      Capture(algorithm, newlineTerminated, tk.tokenizeWords(oldText), tk.tokenizeWords(newText), false, e)
    }

    /** `diff_chars`: character tokens, not newline-terminated unless overridden. */
    function DiffChars(oldText: string, newText: string, tk: Tokenizer, e: Engine<string>): (d: TextDiff<string>)
      reads this
      ensures d.oldSlices == tk.tokenizeChars(oldText) && d.newSlices == tk.tokenizeChars(newText)
      ensures d.algorithm == algorithm && d.ops == e.captureDiffSlices(algorithm, d.oldSlices, d.newSlices)
      ensures d.newlineTerminated == (newlineTerminated.Some? && newlineTerminated.value)
    {
      Capture(algorithm, newlineTerminated, tk.tokenizeChars(oldText), tk.tokenizeChars(newText), false, e)
    }

    /** `diff_unicode_words`: unicode word tokens, not newline-terminated unless overridden. */
    function DiffUnicodeWords(oldText: string, newText: string, tk: Tokenizer, e: Engine<string>): (d: TextDiff<string>)
      reads this
      ensures d.oldSlices == tk.tokenizeUnicodeWords(oldText) && d.newSlices == tk.tokenizeUnicodeWords(newText)
      ensures d.algorithm == algorithm && d.ops == e.captureDiffSlices(algorithm, d.oldSlices, d.newSlices)
      ensures d.newlineTerminated == (newlineTerminated.Some? && newlineTerminated.value)
    {
      Capture(algorithm, newlineTerminated, tk.tokenizeUnicodeWords(oldText), tk.tokenizeUnicodeWords(newText), false, e)
    }

    /** `diff_graphemes`: grapheme tokens, not newline-terminated unless overridden. */
    function DiffGraphemes(oldText: string, newText: string, tk: Tokenizer, e: Engine<string>): (d: TextDiff<string>)
      reads this
      ensures d.oldSlices == tk.tokenizeGraphemes(oldText) && d.newSlices == tk.tokenizeGraphemes(newText)
      ensures d.algorithm == algorithm && d.ops == e.captureDiffSlices(algorithm, d.oldSlices, d.newSlices)
      ensures d.newlineTerminated == (newlineTerminated.Some? && newlineTerminated.value)
    {
      Capture(algorithm, newlineTerminated, tk.tokenizeGraphemes(oldText), tk.tokenizeGraphemes(newText), false, e)
    }

    /** `diff_slices`: the given slices kept as they are, not newline-terminated unless overridden. */
    function DiffSlices<T>(oldSlices: seq<T>, newSlices: seq<T>, e: Engine<T>): (d: TextDiff<T>)
      reads this
      ensures d.oldSlices == oldSlices && d.newSlices == newSlices
      ensures d.algorithm == algorithm && d.ops == e.captureDiffSlices(algorithm, oldSlices, newSlices)
      ensures d.newlineTerminated == (newlineTerminated.Some? && newlineTerminated.value)
    {
      Capture(algorithm, newlineTerminated, oldSlices, newSlices, false, e)
    }
  }

  /** `TextDiff::configure()`: a fresh default builder. */
  method Configure() returns (config: TextDiffConfig)
    ensures fresh(config)
    ensures config.algorithm == Myers && config.newlineTerminated == None
  {
    config := new TextDiffConfig.Default();
  }

  /** `TextDiff::from_lines`: Myers over lines; always newline-terminated, whatever the texts end with. */
  method FromLines(oldText: string, newText: string, tk: Tokenizer, e: Engine<string>) returns (d: TextDiff<string>)
    ensures d == Capture(Myers, None, tk.tokenizeLines(oldText), tk.tokenizeLines(newText), true, e)
    ensures d.newlineTerminated && d.algorithm == Myers
  {
    var config := Configure();
    d := config.DiffLines(oldText, newText, tk, e);
  }

  /** `TextDiff::from_words`: Myers over words; not newline-terminated. */
  method FromWords(oldText: string, newText: string, tk: Tokenizer, e: Engine<string>) returns (d: TextDiff<string>)
    ensures d == Capture(Myers, None, tk.tokenizeWords(oldText), tk.tokenizeWords(newText), false, e)
    ensures !d.newlineTerminated && d.algorithm == Myers
  {
    var config := Configure();
    d := config.DiffWords(oldText, newText, tk, e);
  }

  /** `TextDiff::from_chars`: Myers over characters; not newline-terminated. */
  method FromChars(oldText: string, newText: string, tk: Tokenizer, e: Engine<string>) returns (d: TextDiff<string>)
    ensures d == Capture(Myers, None, tk.tokenizeChars(oldText), tk.tokenizeChars(newText), false, e)
    ensures !d.newlineTerminated && d.algorithm == Myers
  {
    var config := Configure();
    d := config.DiffChars(oldText, newText, tk, e);
  }

  /** `TextDiff::from_unicode_words`: Myers over unicode words; not newline-terminated. */
  method FromUnicodeWords(oldText: string, newText: string, tk: Tokenizer, e: Engine<string>) returns (d: TextDiff<string>)
    ensures d == Capture(Myers, None, tk.tokenizeUnicodeWords(oldText), tk.tokenizeUnicodeWords(newText), false, e)
    ensures !d.newlineTerminated && d.algorithm == Myers
  {
    var config := Configure();
    d := config.DiffUnicodeWords(oldText, newText, tk, e);
  }

  /** `TextDiff::from_graphemes`: Myers over graphemes; not newline-terminated. */
  method FromGraphemes(oldText: string, newText: string, tk: Tokenizer, e: Engine<string>) returns (d: TextDiff<string>)
    ensures d == Capture(Myers, None, tk.tokenizeGraphemes(oldText), tk.tokenizeGraphemes(newText), false, e)
    ensures !d.newlineTerminated && d.algorithm == Myers
  {
    var config := Configure();
    d := config.DiffGraphemes(oldText, newText, tk, e);
  }

  /** `TextDiff::from_slices`: Myers over the given slices; not newline-terminated. */
  method FromSlices<T>(oldSlices: seq<T>, newSlices: seq<T>, e: Engine<T>) returns (d: TextDiff<T>)
    ensures d == Capture(Myers, None, oldSlices, newSlices, false, e)
    ensures d.oldSlices == oldSlices && d.newSlices == newSlices && !d.newlineTerminated && d.algorithm == Myers
  {
    var config := Configure();
    d := config.DiffSlices(oldSlices, newSlices, e);
  }

  /**
   * A configured line diff: `TextDiff::configure().algorithm(alg)
   * .newline_terminated(yes).diff_lines(old, new)` records both settings.
   */
  method ConfiguredLines(alg: Algorithm, yes: bool, oldText: string, newText: string, tk: Tokenizer, e: Engine<string>)
    returns (d: TextDiff<string>)
    ensures d == Capture(alg, Some(yes), tk.tokenizeLines(oldText), tk.tokenizeLines(newText), true, e)
    ensures d.newlineTerminated == yes && d.algorithm == alg
  {
    var config := Configure();
    config := config.SetAlgorithm(alg);
    config := config.SetNewlineTerminated(yes);
    d := config.DiffLines(oldText, newText, tk, e);
  }
}
