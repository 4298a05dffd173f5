# similar: text diffing front end and `get_close_matches`

This project models the core of `src/text/mod.rs` from the Rust crate
`similar`. It has two parts.

- **`get_close_matches`**: rank a list of possibilities against a word and
  return the best `n`. Each possibility is split into characters. It must
  reach the cutoff three times: with the cheap `upper_seq_ratio` bound, with
  the quick ratio, and with the exact ratio of a `TextDiff::from_slices`
  diff. Each survivor is pushed into a `BinaryHeap` under the key
  `(score, Reverse(word))`, where the score is the ratio scaled to a `u32`.
  At most `n` entries are then popped.
- **The `TextDiffConfig` builder and the `TextDiff` session**:
  - the builder holds an algorithm and an optional newline-termination
    override;
  - each `diff_*` entry point tokenizes both texts and captures the diff ops
    with the configured algorithm;
  - it resolves the newline flag: the override if set, otherwise `true` for
    lines and `false` for every other granularity;
  - the session's accessors answer from what it stored.

Modules:

- `Wrappers`: `Option`.
- `Similar`: the crate-root vocabulary the file uses: `Algorithm` (default
  Myers), `DiffOp`, `Change`. It also holds `Engine`, a record of the
  crate-root operations: `capture_diff_slices`, `group_diff_ops`,
  `DiffOp::iter_changes` and `get_diff_ratio`.
- `TextDiffs`: `Tokenizer`, a record of the `DiffableStr` tokenizers. The
  `TextDiff` datatype: it is never mutated, so its field accessors are its
  destructors. The private `diff` as `Capture`. `TextDiffConfig`, a class:
  its setters mutate its two fields. The `TextDiff::from_*` constructors.
- `Lexicographic`: the `Ord` of `str`, proved a strict total order.
- `Ranking`: the heap entry, the heap order, and `MatchHeap`. That class
  keeps its entries in a sequence sorted in pop order, with `Push` and
  `Pop` on it. `PopOrder` is the specification function: the order in
  which a heap pops what was pushed into it.
- `CloseMatches`:
  - the saturating, truncating score cast, `ScaledScore`;
  - `Qualifying` and `Candidates`, the pushes and their words;
  - `TopMatches`, the specification of the result;
  - the method `GetCloseMatches` with both of the source's loops;
  - the properties of the result, as lemmas.

The crate-root matcher, the ratio helpers and the tokenizers are not shown
in this file. They are function-typed fields of the parameters `Engine`,
`Tokenizer` and `Scoring`. Nothing is assumed about them beyond being
functions.

## Model

| member | source | states |
|---|---|---|
| `TextDiffs.TextDiffConfig.Default` | src/text/mod.rs:23-35 | The default builder has the default algorithm, Myers, and no newline override. |
| `TextDiffs.TextDiffConfig.SetAlgorithm` | src/text/mod.rs:41-44 | Sets the algorithm. Leaves the override unchanged. Returns the same builder. |
| `TextDiffs.TextDiffConfig.SetNewlineTerminated` | src/text/mod.rs:53-56 | Sets the override to `Some(yes)`. Leaves the algorithm unchanged. Returns the same builder. |
| `TextDiffs.Capture` | src/text/mod.rs:147-161 | The session stores the slices unchanged, the config's algorithm and the ops the matcher captures with that algorithm. Its newline flag is the override when one is set, otherwise the entry point's default. |
| `TextDiffs.TextDiffConfig.DiffLines` | src/text/mod.rs:62-72 | Line tokens of both texts. Flag `true` unless the override says otherwise. Config algorithm and its captured ops. |
| `TextDiffs.TextDiffConfig.DiffWords` | src/text/mod.rs:77-87 | Word tokens. Flag `false` unless overridden to `true`. Config algorithm and its ops. |
| `TextDiffs.TextDiffConfig.DiffChars` | src/text/mod.rs:90-100 | Character tokens. Flag `false` unless overridden to `true`. Config algorithm and its ops. |
| `TextDiffs.TextDiffConfig.DiffUnicodeWords` | src/text/mod.rs:110-120 | Unicode word tokens. Flag `false` unless overridden to `true`. Config algorithm and its ops. |
| `TextDiffs.TextDiffConfig.DiffGraphemes` | src/text/mod.rs:126-136 | Grapheme tokens. Flag `false` unless overridden to `true`. Config algorithm and its ops. |
| `TextDiffs.TextDiffConfig.DiffSlices` | src/text/mod.rs:139-145 | The given slices, unchanged. Flag `false` unless overridden to `true`. Config algorithm and its ops. |
| `TextDiffs.Configure` | src/text/mod.rs:182-184 | A fresh builder in the default state. |
| `TextDiffs.FromLines` | src/text/mod.rs:189-194 | A default-config line diff. It is newline-terminated, whatever the texts end with, and uses Myers. |
| `TextDiffs.FromWords` | src/text/mod.rs:199-204 | A default-config word diff. It is not newline-terminated and uses Myers. |
| `TextDiffs.FromChars` | src/text/mod.rs:209-214 | A default-config character diff. It is not newline-terminated and uses Myers. |
| `TextDiffs.FromUnicodeWords` | src/text/mod.rs:222-227 | A default-config unicode word diff. It is not newline-terminated and uses Myers. |
| `TextDiffs.FromGraphemes` | src/text/mod.rs:235-240 | A default-config grapheme diff. It is not newline-terminated and uses Myers. |
| `TextDiffs.FromSlices` | src/text/mod.rs:247-252 | A default-config slice diff. It stores the slices unchanged, is not newline-terminated and uses Myers. |
| `TextDiffs.ConfiguredLines` | src/text/mod.rs:41-72 | The chain algorithm, then newline_terminated, then diff_lines records both settings: the chosen algorithm, and the override flag in place of the line default. |
| `TextDiffs.CapturedQueries` | src/text/mod.rs:287-335 | Definitional: it follows by unfolding `Capture` and the query functions. The queries of a captured session compute on the stored ops and slices: `ratio` from the ops and both lengths, `grouped_ops(n)`, `iter_changes(op)` against the stored slices, and `iter_all_changes`. |
| `TextDiffs.TextDiff.Ratio` | src/text/mod.rs:287-289 | Computes `ratio()`: the crate's `get_diff_ratio` of the stored ops, the old length and the new length. |
| `TextDiffs.TextDiff.IterChanges` | src/text/mod.rs:297-307 | Computes `iter_changes(op)`: the op expanded against the stored old and new slices. |
| `TextDiffs.TextDiff.GroupedOps` | src/text/mod.rs:317-319 | Computes `grouped_ops(n)`: `group_diff_ops` of the stored ops with radius `n`. |
| `TextDiffs.TextDiff.IterAllChanges` | src/text/mod.rs:325-335 | Computes `iter_all_changes()`: the changes of every stored op, op after op. |
| `TextDiffs.FlatChanges` | src/text/mod.rs:333 | Computes the `flat_map` of `iter_changes` over a list of ops, materialised as a sequence. |
| `Wrappers.Option.UnwrapOr` | src/text/mod.rs:158 | Computes `unwrap_or`: the held value, or the default for `None`. |
| `TextDiffs.FlatChangesAppend` | src/text/mod.rs:325-335 | Flattening the changes of a concatenation of op lists gives the concatenation of their flattenings. |
| `TextDiffs.FlatChangesMembership` | src/text/mod.rs:325-335 | A change is among all changes exactly when some stored op expands to it. Both directions are proved. |
| `Lexicographic.Less` | src/text/mod.rs:399-401 | Computes `Ord` for `str`: element by element, where a proper prefix sorts first. |
| `Lexicographic.LessOrEqual` | src/text/mod.rs:399-401 | Equal, or `Less`. |
| `Lexicographic.LessIrreflexive` | src/text/mod.rs:399-401 | No word sorts before itself. |
| `Lexicographic.LessTransitive` | src/text/mod.rs:399-401 | The word order is transitive. |
| `Lexicographic.LessTrichotomy` | src/text/mod.rs:399-401 | Any two words are equal or one sorts before the other. |
| `Lexicographic.LessAsymmetric` | src/text/mod.rs:399-401 | No two words each sort before the other. |
| `Ranking.RanksAbove` | src/text/mod.rs:401 | Computes the strict tuple order on `(score, Reverse(word))`: a higher score, or an equal score and a lexicographically smaller word. |
| `Ranking.AtLeast` | src/text/mod.rs:401 | Computes the non-strict version of that order. |
| `Ranking.AtLeastIffNotBelow` | src/text/mod.rs:401 | The heap's non-strict order holds exactly when the reverse strict order does not: the key order is total. |
| `Ranking.AtLeastTransitive` | src/text/mod.rs:401 | The heap's order is transitive. |
| `Ranking.AtLeastAntisymmetric` | src/text/mod.rs:401 | Entries each at least the other are equal, so heap ties are identical entries. |
| `Ranking.Insert` | src/text/mod.rs:401 | Inserting one entry lengthens the sequence by one. |
| `Ranking.InsertPermutes` | src/text/mod.rs:401 | Inserting adds exactly that entry to the multiset of entries. |
| `Ranking.InsertKeepsSorted` | src/text/mod.rs:401 | Inserting into a sequence sorted in pop order keeps it sorted. |
| `Ranking.InsertWords` | src/text/mod.rs:401 | Inserting adds exactly that entry's word to the multiset of words. |
| `Ranking.WordsAppend` | src/text/mod.rs:407-408 | The words of a concatenation are the concatenated words. |
| `Ranking.PopOrder` | src/text/mod.rs:385-412 | Computes the order in which a heap that received the given pushes, in that order, pops them: each push is inserted in turn. |
| `Ranking.PopOrderPermutes` | src/text/mod.rs:385-412 | The pop order has exactly the pushed entries, as a multiset and in number. |
| `Ranking.PopOrderSorted` | src/text/mod.rs:385-412 | The pop order is sorted: each popped entry is at least every later one. |
| `Ranking.PopOrderWords` | src/text/mod.rs:385-412 | The pop order has exactly the pushed words. |
| `Ranking.PopOrderSortedPermutation` | src/text/mod.rs:385-412 | The pop order is a sorted permutation of the pushes. |
| `Ranking.PopOrderStep` | src/text/mod.rs:401 | Definitional: it unfolds `PopOrder` once. One more push inserts the entry into the pop order. |
| `Ranking.PopOrderDependsOnMultiset` | src/text/mod.rs:385-412 | Pushes with the same multiset of entries pop in the same order, whatever the push order. |
| `Ranking.SortedHeadIsGreatest` | src/text/mod.rs:407 | The first entry of a sorted sequence is at least every entry in it. |
| `Ranking.SortedSameHead` | src/text/mod.rs:407 | Two sorted sequences with the same entries start with the same entry. |
| `Ranking.SameTails` | src/text/mod.rs:407 | Removing equal heads leaves the same multiset of remaining entries. |
| `Ranking.SortedIsUnique` | src/text/mod.rs:385-412 | Two sorted sequences with the same entries are equal. |
| `Ranking.MatchHeap.constructor` | src/text/mod.rs:385 | `BinaryHeap::new()`: an empty, valid heap. |
| `Ranking.MatchHeap.Push` | src/text/mod.rs:401 | `push` keeps the heap valid. The new contents are the old ones with the entry inserted after every entry at least as great. |
| `Ranking.MatchHeap.Pop` | src/text/mod.rs:407-411 | `pop` on an empty heap gives `None` and changes nothing. Otherwise it removes and returns the first entry, which is at least every entry the heap held. |
| `CloseMatches.ScaledScore` | src/text/mod.rs:401 | The `as u32` cast of `ratio * u32::MAX as f32`, where that factor is 2^32. The score is at most `u32::MAX`. It is 0 for a ratio at or below 0 and `u32::MAX` at or above 1. In between it is the floor of ratio times 2^32. |
| `CloseMatches.ScaledScoreThreeQuarters` | src/text/mod.rs:401 | A worked value of the cast: ratio 0.75 scores 3221225472, which is 3 * 2^30. |
| `CloseMatches.ScaledScoreMonotone` | src/text/mod.rs:401 | A greater ratio never gets a smaller score. |
| `CloseMatches.ExactRatio` | src/text/mod.rs:396-397 | Computes the ratio of `TextDiff::from_slices` over the characters of the word and of the possibility. |
| `CloseMatches.PrefiltersPass` | src/text/mod.rs:392 | Holds when neither `upper_seq_ratio` nor the quick ratio is below the cutoff, that is, when the `continue` is not taken. |
| `CloseMatches.Passes` | src/text/mod.rs:392-398 | Holds when the prefilters pass and the exact ratio reaches the cutoff, that is, when the possibility is pushed. |
| `CloseMatches.Score` | src/text/mod.rs:401 | Computes the possibility's heap score: the cast of its exact ratio. |
| `CloseMatches.KeyOf` | src/text/mod.rs:401 | Computes the possibility's heap entry from its score and the word. |
| `CloseMatches.Qualifying` | src/text/mod.rs:389-403 | Computes the entries the first loop pushes, in input order. |
| `CloseMatches.Candidates` | src/text/mod.rs:389-403 | Computes the words of those pushes, duplicates kept. |
| `CloseMatches.TopMatches` | src/text/mod.rs:405-414 | Computes the result: the words of the first `min(n, pushes)` entries in pop order. |
| `CloseMatches.QualifyingStep` | src/text/mod.rs:389-403 | One more possibility adds its key to the pushes exactly when it passes all three tests. |
| `CloseMatches.QualifyingKeyed` | src/text/mod.rs:389-403 | Every pushed entry is the key of one of the possibilities, and that possibility passes all three tests. |
| `CloseMatches.QualifyingCount` | src/text/mod.rs:389-403 | Each key is pushed as often as its word occurs in the input if the word passes, otherwise never. |
| `CloseMatches.CandidatesCount` | src/text/mod.rs:389-403 | Each word is a candidate as often as it occurs in the input if it passes, otherwise never. |
| `CloseMatches.CandidatesSubMultiset` | src/text/mod.rs:389-403 | The candidates form a sub-multiset of the possibilities. |
| `CloseMatches.GetCloseMatches` | src/text/mod.rs:379-415 | Both loops, the prefilter `continue`, the cutoff test, the push, and the bounded pop loop with `break`. The result equals `TopMatches`, about which the lemmas below prove the promised properties. |
| `CloseMatches.TopMatchesLength` | src/text/mod.rs:405-414 | Exactly `min(n, number of candidates)` words are returned, so at most `n`. |
| `CloseMatches.RankedSplit` | src/text/mod.rs:405-412 | The candidates are the returned words plus the words left in the heap. |
| `CloseMatches.TopMatchesQualify` | src/text/mod.rs:389-402 | Every returned word is one of the possibilities and reaches the cutoff with `upper_seq_ratio`, the quick ratio and the exact ratio. |
| `CloseMatches.TopMatchesSubMultiset` | src/text/mod.rs:389-412 | The result is a sub-multiset of the candidates, so a duplicated possibility appears at most as often as it qualifies. |
| `CloseMatches.TopMatchesAll` | src/text/mod.rs:405-412 | When `n` is at least the number of candidates, every candidate is returned. |
| `CloseMatches.RankedKeyed` | src/text/mod.rs:389-403 | Every ranked entry is its word's key. |
| `CloseMatches.TopMatchesOrdered` | src/text/mod.rs:399-401 | The scores of the result do not increase, and among equal scores the words come in ascending lexicographic order. |
| `CloseMatches.TopMatchesOptimal` | src/text/mod.rs:385-412 | Top-n: a candidate left out ranks strictly above no returned word. "Left out" means it has one more copy among the candidates than in the result. |
| `CloseMatches.LeftOutIndex` | src/text/mod.rs:405-412 | A left-out candidate's key lies in the ranked entries after the returned prefix. |
| `CloseMatches.WordIndex` | src/text/mod.rs:407-408 | A word among the words of the entries from position `m` on is the word of some entry at or after `m`. |
| `CloseMatches.TopMatchesFollowRatio` | src/text/mod.rs:399-401 | A later word has a strictly greater exact ratio only when both ratios truncate to the same score. |
| `CloseMatches.TopMatchesOrderIndependent` | src/text/mod.rs:399-401 | The result depends only on the multiset of possibilities, not on their order. |
| `CloseMatches.AppelExample` | src/text/mod.rs:515-516 | With the stated ratios, `"appel"` against `ape, apple, peach, puppy` with `n = 3` and cutoff 0.6 gives `["apple", "ape"]`. |
| `CloseMatches.AppelQualifying` | src/text/mod.rs:515-516 | In that example only `ape` and then `apple` are pushed. |
| `CloseMatches.HuloExample` | src/text/mod.rs:517-525 | With the stated ratios, the four words tied at 0.75 against `"hulo"` come back as `["aulo", "hulu", "uulo", "zulo"]`. |
| `CloseMatches.HuloQualifying` | src/text/mod.rs:517-525 | In that test the pushes are `hulu`, `zulo`, `uulo`, `aulo`, in input order. |
| `CloseMatches.TiedPopOrder` | src/text/mod.rs:399-401 | Four entries of equal score pop in lexicographic order of their words. |
| `CloseMatches.TiedSorted` | src/text/mod.rs:399-401 | The tied entries in that order are sorted in the heap's order. |

## Left out

- `capture_diff_slices`, Myers and Patience, `get_diff_ratio`, `group_diff_ops` and `DiffOp::iter_changes` are defined in the crate root, which is not part of this model. They are function-typed fields of `Engine`, and nothing is assumed about them.
- The tokenizers of `DiffableStr`, `upper_seq_ratio` and `QuickSeqRatio::calc` are not part of this model. They are fields of `Tokenizer` and `Scoring`. The quick ratio is one function of both character sequences; its precomputation from the first sequence is not modelled.
- `CloseMatches.ScaledScore`: the ratio and the cutoff are reals, not `f32`. The factor `u32::MAX as f32` is 2^32, and multiplying by a power of two is exact, so the score is exact for every ratio that is an `f32` value. A NaN ratio, which `as u32` maps to 0, has no real counterpart and is not modelled.
- `ratio()` is documented to lie in `0..=1`, and the tests give concrete values such as 0.75. Both depend on `get_diff_ratio`, which is not part of the model, so neither is modelled.
- `CloseMatches.AppelExample`, `CloseMatches.HuloExample`: they take the ratios of the test words as hypotheses, because the ratio function is not modelled.
- `unified_diff` renders through the `udiff` module, which is not part of this model; `iter_inline_changes` uses the feature-gated `inline` module, also not part of it.
- `Cow`, lifetimes, `Box<dyn Iterator>` and lazy iteration: sessions hold sequences and changes are materialised as sequences.
- The `insta` snapshot tests: their snapshot files are not part of this model. The newline assertions of the tests at lines 446, 459 and 484 are covered by `TextDiffs.FromLines`.
- `str` and `[u8]` texts: words are `string`. Comparing code points orders strings as comparing their UTF-8 bytes does, so the tie-break is the same.
- `Ranking.MatchHeap`: a sequence sorted in pop order stands in for the binary heap's array layout and sift operations. Entries that compare equal are identical values, so the pop order is the same.
- `TextDiff` is a datatype rather than a class: the source never mutates a session, so each accessor is a field of the value.
