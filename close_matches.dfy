/**
 * `get_close_matches`: rank the possibilities against a word by their diff
 * ratio and keep the best `n`.
 *
 * Each possibility is tokenized into characters and must reach the cutoff
 * with the cheap upper bound, then with the quick ratio, then with the exact
 * ratio of a `from_slices` diff.  Survivors are pushed into a max-heap keyed
 * on `(scaled ratio, Reverse(word))`, and at most `n` of them are popped.
 * `TopMatches` is the specification of the result and the lemmas below state
 * what the source promises about it.
 */
module CloseMatches {
  import opened Wrappers
  import Similar
  import opened TextDiffs
  import opened Ranking
  import Lexicographic

  const U32Max: nat := 4294967295

  /** `u32::MAX as f32`: the nearest `f32` to 4294967295 is 2^32. */
  const ScoreScale: real := 4294967296.0

  /**
   * `(ratio * u32::MAX as f32) as u32`.  The factor is 2^32, so the product
   * is exact for every `f32` ratio; the cast truncates toward zero and
   * saturates at both ends of the `u32` range.
   */
  function ScaledScore(ratio: real): (s: nat)
    ensures s <= U32Max
    ensures ratio <= 0.0 ==> s == 0
    ensures ratio >= 1.0 ==> s == U32Max
    ensures 0.0 <= ratio < 1.0 ==> s as real <= ratio * ScoreScale < s as real + 1.0
  {
    var x := ratio * ScoreScale;
    if x <= 0.0 then 0 else if x >= ScoreScale then U32Max else x.Floor
  }

  /** A greater ratio never gets a smaller score. */
  lemma ScaledScoreMonotone(r1: real, r2: real)
    requires r1 <= r2
    ensures ScaledScore(r1) <= ScaledScore(r2)
  {
    var x1, x2 := r1 * ScoreScale, r2 * ScoreScale;
    assert x1 <= x2;
    if 0.0 < x1 && x2 < ScoreScale {
      assert x1.Floor as real <= x1 <= x2;
      assert x1.Floor <= x2.Floor;
    }
  }

  /** Ratio 0.75 scales to 3 * 2^30, for instance. */
  lemma ScaledScoreThreeQuarters()
    ensures ScaledScore(0.75) == 3221225472
  {
    assert 0.75 * ScoreScale == 3221225472.0;
  }

  /** `min(n, len)`: how many entries the pop loop takes. */
  function Min(a: nat, b: nat): nat {
    if a <= b then a else b
  }

  /** The ratio helpers of the `utils` module and the crate's matcher. */
  datatype Scoring = Scoring(
    tokenizer: Tokenizer,
    upperSeqRatio: (seq<string>, seq<string>) -> real,
    quickRatio: (seq<string>, seq<string>) -> real,
    engine: Similar.Engine<string>)

  /** The ratio of `TextDiff::from_slices` over the two character sequences. */
  function ExactRatio(sc: Scoring, word: string, w: string): real {
    var seq1 := sc.tokenizer.tokenizeChars(word);
    Capture(Similar.DefaultAlgorithm, None, seq1, sc.tokenizer.tokenizeChars(w), false, sc.engine).Ratio(sc.engine)
  }

  /** Neither cheap upper bound, `upper_seq_ratio` nor the quick ratio, falls below the cutoff. */
  predicate PrefiltersPass(sc: Scoring, word: string, cutoff: real, w: string) {
    var seq1, seq2 := sc.tokenizer.tokenizeChars(word), sc.tokenizer.tokenizeChars(w);
    !(sc.upperSeqRatio(seq1, seq2) < cutoff) && !(sc.quickRatio(seq1, seq2) < cutoff)
  }

  /** The two prefilters and the exact ratio all reach the cutoff. */
  predicate Passes(sc: Scoring, word: string, cutoff: real, w: string) {
    PrefiltersPass(sc, word, cutoff, w) && ExactRatio(sc, word, w) >= cutoff
  }

  /** The heap key's score: the exact ratio scaled to `u32`. */
  function Score(sc: Scoring, word: string, w: string): nat {
    ScaledScore(ExactRatio(sc, word, w))
  }

  function KeyOf(sc: Scoring, word: string, w: string): Entry {
    Entry(Score(sc, word, w), w)
  }

  /** The entries pushed into the heap, in the order of the possibilities. */
  function Qualifying(sc: Scoring, word: string, cutoff: real, ps: seq<string>): seq<Entry>
  {
    if ps == [] then []
    else
      var init := Qualifying(sc, word, cutoff, ps[..|ps| - 1]);
      if Passes(sc, word, cutoff, ps[|ps| - 1]) then init + [KeyOf(sc, word, ps[|ps| - 1])] else init
  }

  /** The words that pass all three tests, in input order, duplicates kept. */
  function Candidates(sc: Scoring, word: string, cutoff: real, ps: seq<string>): seq<string> {
    Words(Qualifying(sc, word, cutoff, ps))
  }

  /** The result of `get_close_matches`: the first `n` entries in pop order. */
  function TopMatches(sc: Scoring, word: string, ps: seq<string>, n: nat, cutoff: real): seq<string> {
    var ranked := PopOrder(Qualifying(sc, word, cutoff, ps));
    Words(ranked[..Min(n, |ranked|)])
  }

  /** Every pushed entry is the key of a possibility that passes. */
  lemma {:induction false} QualifyingKeyed(sc: Scoring, word: string, cutoff: real, ps: seq<string>, e: Entry)
    requires e in multiset(Qualifying(sc, word, cutoff, ps))
    ensures e == KeyOf(sc, word, e.word) && e.word in ps && Passes(sc, word, cutoff, e.word)
  {
    var init := ps[..|ps| - 1];
    if e !in multiset(Qualifying(sc, word, cutoff, init)) {
      assert e == KeyOf(sc, word, ps[|ps| - 1]);
    } else {
      QualifyingKeyed(sc, word, cutoff, init, e);
      assert e.word in init;
    }
  }

  /**
   * An entry is pushed as often as its word occurs among the possibilities
   * when it is that word's key and the word passes, and never otherwise.
   */
  lemma {:induction false} QualifyingCount(sc: Scoring, word: string, cutoff: real, ps: seq<string>, e: Entry)
    ensures multiset(Qualifying(sc, word, cutoff, ps))[e]
         == if e == KeyOf(sc, word, e.word) && Passes(sc, word, cutoff, e.word) then multiset(ps)[e.word] else 0
  {
    if ps != [] {
      var init, last := ps[..|ps| - 1], ps[|ps| - 1];
      QualifyingCount(sc, word, cutoff, init, e);
      assert ps == init + [last];
    }
  }

  /**
   * The result does not depend on the order of the possibilities: equal
   * scores are settled by the words themselves, never by input position.
   */
  lemma TopMatchesOrderIndependent(sc: Scoring, word: string, ps1: seq<string>, ps2: seq<string>, n: nat, cutoff: real)
    requires multiset(ps1) == multiset(ps2)
    ensures TopMatches(sc, word, ps1, n, cutoff) == TopMatches(sc, word, ps2, n, cutoff)
  {
    var q1, q2 := Qualifying(sc, word, cutoff, ps1), Qualifying(sc, word, cutoff, ps2);
    forall e ensures multiset(q1)[e] == multiset(q2)[e] {
      QualifyingCount(sc, word, cutoff, ps1, e);
      QualifyingCount(sc, word, cutoff, ps2, e);
    }
    assert multiset(q1) == multiset(q2);
    PopOrderDependsOnMultiset(q1, q2);
  }

  /**
   * A possibility is a candidate as often as it occurs in the input when it
   * passes, and never otherwise.
   */
  lemma {:induction false} CandidatesCount(sc: Scoring, word: string, cutoff: real, ps: seq<string>, w: string)
    ensures multiset(Candidates(sc, word, cutoff, ps))[w]
         == if Passes(sc, word, cutoff, w) then multiset(ps)[w] else 0
  {
    if ps != [] {
      var init, last := ps[..|ps| - 1], ps[|ps| - 1];
      CandidatesCount(sc, word, cutoff, init, w);
      assert ps == init + [last];
      var q := Qualifying(sc, word, cutoff, init);
      if Passes(sc, word, cutoff, last) {
        assert Words(q + [KeyOf(sc, word, last)]) == Words(q) + [last];
      }
    }
  }

  /** The candidates, as a multiset, are contained in the possibilities. */
  lemma CandidatesSubMultiset(sc: Scoring, word: string, cutoff: real, ps: seq<string>)
    ensures multiset(Candidates(sc, word, cutoff, ps)) <= multiset(ps)
  {
    forall w ensures multiset(Candidates(sc, word, cutoff, ps))[w] <= multiset(ps)[w] {
      CandidatesCount(sc, word, cutoff, ps, w);
    }
  }

  /** The result holds `min(n, #candidates)` words. */
  lemma TopMatchesLength(sc: Scoring, word: string, ps: seq<string>, n: nat, cutoff: real)
    ensures |TopMatches(sc, word, ps, n, cutoff)| == Min(n, |Candidates(sc, word, cutoff, ps)|)
  {
    PopOrderSortedPermutation(Qualifying(sc, word, cutoff, ps));
  }

  /** The ranked entries split into the returned prefix and the rest. */
  lemma RankedSplit(sc: Scoring, word: string, ps: seq<string>, n: nat, cutoff: real)
    ensures var ranked := PopOrder(Qualifying(sc, word, cutoff, ps));
      && multiset(Candidates(sc, word, cutoff, ps))
         == multiset(TopMatches(sc, word, ps, n, cutoff)) + multiset(Words(ranked[Min(n, |ranked|)..]))
  {
    var ranked := PopOrder(Qualifying(sc, word, cutoff, ps));
    var m := Min(n, |ranked|);
    PopOrderSortedPermutation(Qualifying(sc, word, cutoff, ps));
    assert Words(ranked) == Words(ranked[..m]) + Words(ranked[m..]);
  }

  /** Every returned word is a possibility that passes all three tests. */
  lemma TopMatchesQualify(sc: Scoring, word: string, ps: seq<string>, n: nat, cutoff: real)
    ensures forall w :: w in TopMatches(sc, word, ps, n, cutoff) ==>
      var seq1, seq2 := sc.tokenizer.tokenizeChars(word), sc.tokenizer.tokenizeChars(w);
      && w in ps
      && sc.upperSeqRatio(seq1, seq2) >= cutoff
      && sc.quickRatio(seq1, seq2) >= cutoff
      && ExactRatio(sc, word, w) >= cutoff
  {
    forall w | w in TopMatches(sc, word, ps, n, cutoff) ensures w in ps && Passes(sc, word, cutoff, w) {
      RankedSplit(sc, word, ps, n, cutoff);
      CandidatesCount(sc, word, cutoff, ps, w);
      assert w in multiset(Candidates(sc, word, cutoff, ps));
    }
  }

  /**
   * The result, as a multiset, is contained in the candidates: a duplicated
   * possibility appears at most as often as it was given.
   */
  lemma TopMatchesSubMultiset(sc: Scoring, word: string, ps: seq<string>, n: nat, cutoff: real)
    ensures multiset(TopMatches(sc, word, ps, n, cutoff)) <= multiset(Candidates(sc, word, cutoff, ps))
  {
    RankedSplit(sc, word, ps, n, cutoff);
  }

  /** With `n` at least the number of candidates, every candidate is returned. */
  lemma TopMatchesAll(sc: Scoring, word: string, ps: seq<string>, n: nat, cutoff: real)
    requires |Candidates(sc, word, cutoff, ps)| <= n
    ensures multiset(TopMatches(sc, word, ps, n, cutoff)) == multiset(Candidates(sc, word, cutoff, ps))
  {
    RankedSplit(sc, word, ps, n, cutoff);
    var ranked := PopOrder(Qualifying(sc, word, cutoff, ps));
    PopOrderSortedPermutation(Qualifying(sc, word, cutoff, ps));
    assert ranked[Min(n, |ranked|)..] == [];
  }

  /** The ranked entries are the keys of their words. */
  lemma RankedKeyed(sc: Scoring, word: string, ps: seq<string>, cutoff: real, k: nat)
    requires k < |PopOrder(Qualifying(sc, word, cutoff, ps))|
    ensures var ranked := PopOrder(Qualifying(sc, word, cutoff, ps));
      ranked[k] == KeyOf(sc, word, ranked[k].word)
  {
    var ranked := PopOrder(Qualifying(sc, word, cutoff, ps));
    PopOrderSortedPermutation(Qualifying(sc, word, cutoff, ps));
    assert ranked[k] in multiset(ranked);
    QualifyingKeyed(sc, word, cutoff, ps, ranked[k]);
  }

  /**
   * The result is ordered by non-increasing score, and words of equal score
   * come in ascending lexicographic order.
   */
  lemma TopMatchesOrdered(sc: Scoring, word: string, ps: seq<string>, n: nat, cutoff: real)
    ensures var rv := TopMatches(sc, word, ps, n, cutoff);
      forall i, j :: 0 <= i < j < |rv| ==>
        || Score(sc, word, rv[i]) > Score(sc, word, rv[j])
        || (Score(sc, word, rv[i]) == Score(sc, word, rv[j]) && Lexicographic.LessOrEqual(rv[i], rv[j]))
  {
    var ranked := PopOrder(Qualifying(sc, word, cutoff, ps));
    PopOrderSortedPermutation(Qualifying(sc, word, cutoff, ps));
    var rv := TopMatches(sc, word, ps, n, cutoff);
    forall i, j | 0 <= i < j < |rv|
      ensures AtLeast(KeyOf(sc, word, rv[i]), KeyOf(sc, word, rv[j]))
    {
      RankedKeyed(sc, word, ps, cutoff, i);
      RankedKeyed(sc, word, ps, cutoff, j);
    }
  }

  /**
   * Top-n: a candidate left out (one more copy of it among the candidates
   * than in the result) ranks strictly above no returned word.
   */
  lemma TopMatchesOptimal(sc: Scoring, word: string, ps: seq<string>, n: nat, cutoff: real, w: string)
    requires multiset(TopMatches(sc, word, ps, n, cutoff))[w] < multiset(Candidates(sc, word, cutoff, ps))[w]
    ensures var rv := TopMatches(sc, word, ps, n, cutoff);
      forall i :: 0 <= i < |rv| ==> !RanksAbove(KeyOf(sc, word, w), KeyOf(sc, word, rv[i]))
  {
    var ranked := PopOrder(Qualifying(sc, word, cutoff, ps));
    var k := LeftOutIndex(sc, word, ps, n, cutoff, w);
    PopOrderSorted(Qualifying(sc, word, cutoff, ps));
    var rv := TopMatches(sc, word, ps, n, cutoff);
    forall i | 0 <= i < |rv| ensures !RanksAbove(KeyOf(sc, word, w), KeyOf(sc, word, rv[i])) {
      RankedKeyed(sc, word, ps, cutoff, i);
      assert rv[i] == ranked[i].word;
      assert AtLeast(ranked[i], ranked[k]);
      AtLeastIffNotBelow(ranked[i], ranked[k]);
    }
  }

  /** A left-out candidate's key sits in the ranked entries after the returned prefix. */
  lemma LeftOutIndex(sc: Scoring, word: string, ps: seq<string>, n: nat, cutoff: real, w: string) returns (k: nat)
    requires multiset(TopMatches(sc, word, ps, n, cutoff))[w] < multiset(Candidates(sc, word, cutoff, ps))[w]
    ensures var ranked := PopOrder(Qualifying(sc, word, cutoff, ps));
      |TopMatches(sc, word, ps, n, cutoff)| <= k < |ranked| && ranked[k] == KeyOf(sc, word, w)
  {
    var ranked := PopOrder(Qualifying(sc, word, cutoff, ps));
    var m := Min(n, |ranked|);
    RankedSplit(sc, word, ps, n, cutoff);
    assert w in multiset(Words(ranked[m..]));
    k := WordIndex(ranked, m, w);
    RankedKeyed(sc, word, ps, cutoff, k);
  }

  /** Where a word of the entries from `m` on occurs. */
  lemma WordIndex(s: seq<Entry>, m: nat, w: string) returns (k: nat)
    requires m <= |s| && w in multiset(Words(s[m..]))
    ensures m <= k < |s| && s[k].word == w
  {
    var t := s[m..];
    assert w in Words(t);
    var j :| 0 <= j < |t| && Words(t)[j] == w;
    k := m + j;
    assert t[j] == s[k];
  }

  /**
   * The order follows the exact ratio: a later word with a strictly greater
   * ratio is only possible when both ratios truncate to the same score.
   */
  lemma TopMatchesFollowRatio(sc: Scoring, word: string, ps: seq<string>, n: nat, cutoff: real, i: nat, j: nat)
    requires i < j < |TopMatches(sc, word, ps, n, cutoff)|
    ensures var rv := TopMatches(sc, word, ps, n, cutoff);
      ExactRatio(sc, word, rv[i]) < ExactRatio(sc, word, rv[j]) ==> Score(sc, word, rv[i]) == Score(sc, word, rv[j])
  {
    var rv := TopMatches(sc, word, ps, n, cutoff);
    TopMatchesOrdered(sc, word, ps, n, cutoff);
    if ExactRatio(sc, word, rv[i]) < ExactRatio(sc, word, rv[j]) {
      ScaledScoreMonotone(ExactRatio(sc, word, rv[i]), ExactRatio(sc, word, rv[j]));
    }
  }

  /**
   * The documented example: of "ape", "apple", "peach" and "puppy", only the
   * first two reach 0.6 against "appel", with ratios 0.75 and 0.8, and the
   * result is `["apple", "ape"]`.
   */
  lemma AppelExample(sc: Scoring)
    requires PrefiltersPass(sc, "appel", 0.6, "ape") && PrefiltersPass(sc, "appel", 0.6, "apple")
    requires ExactRatio(sc, "appel", "ape") == 0.75 && ExactRatio(sc, "appel", "apple") == 0.8
    requires ExactRatio(sc, "appel", "peach") < 0.6 && ExactRatio(sc, "appel", "puppy") < 0.6
    ensures TopMatches(sc, "appel", ["ape", "apple", "peach", "puppy"], 3, 0.6) == ["apple", "ape"]
  {
    var ape, apple := KeyOf(sc, "appel", "ape"), KeyOf(sc, "appel", "apple");
    AppelQualifying(sc, ["ape", "apple", "peach", "puppy"]);
    assert apple.score > ape.score;
    assert PopOrder([ape]) == [ape] by { PopOrderStep([], ape); }
    assert PopOrder([ape, apple]) == [apple, ape] by {
      PopOrderStep([ape], apple);
      assert !AtLeast(ape, apple);
    }
    assert Words([apple, ape]) == ["apple", "ape"];
  }

  /** The pushes of the documented example: "ape", then "apple". */
  lemma AppelQualifying(sc: Scoring, ps: seq<string>)
    requires ps == ["ape", "apple", "peach", "puppy"]
    requires PrefiltersPass(sc, "appel", 0.6, "ape") && PrefiltersPass(sc, "appel", 0.6, "apple")
    requires ExactRatio(sc, "appel", "ape") == 0.75 && ExactRatio(sc, "appel", "apple") == 0.8
    requires ExactRatio(sc, "appel", "peach") < 0.6 && ExactRatio(sc, "appel", "puppy") < 0.6
    ensures Qualifying(sc, "appel", 0.6, ps) == [KeyOf(sc, "appel", "ape"), KeyOf(sc, "appel", "apple")]
  {
    var ape, apple := KeyOf(sc, "appel", "ape"), KeyOf(sc, "appel", "apple");
    assert ps[..0] == [];
    assert Qualifying(sc, "appel", 0.6, ps[..1]) == [ape] by {
      assert Passes(sc, "appel", 0.6, "ape");
      QualifyingStep(sc, "appel", 0.6, ps, 0);
    }
    assert Qualifying(sc, "appel", 0.6, ps[..2]) == [ape, apple] by {
      assert Passes(sc, "appel", 0.6, "apple");
      QualifyingStep(sc, "appel", 0.6, ps, 1);
    }
    assert Qualifying(sc, "appel", 0.6, ps[..3]) == [ape, apple] by {
      assert !Passes(sc, "appel", 0.6, "peach");
      QualifyingStep(sc, "appel", 0.6, ps, 2);
    }
    assert Qualifying(sc, "appel", 0.6, ps[..4]) == [ape, apple] by {
      assert !Passes(sc, "appel", 0.6, "puppy");
      QualifyingStep(sc, "appel", 0.6, ps, 3);
    }
    assert ps[..4] == ps;
  }

  /**
   * The test's tie: "hulu", "zulo", "uulo" and "aulo" all have ratio 0.75
   * against "hulo" and the other six possibilities fall below 0.7, so the
   * four come back in lexicographic order.
   */
  lemma HuloExample(sc: Scoring)
    requires forall w :: w in ["hulu", "zulo", "uulo", "aulo"] ==>
      PrefiltersPass(sc, "hulo", 0.7, w) && ExactRatio(sc, "hulo", w) == 0.75
    requires forall w :: w in ["hi", "hali", "hoho", "amaz", "blah", "hopp"] ==> ExactRatio(sc, "hulo", w) < 0.7
    ensures TopMatches(sc, "hulo", ["hi", "hulu", "hali", "hoho", "amaz", "zulo", "blah", "hopp", "uulo", "aulo"], 5, 0.7)
         == ["aulo", "hulu", "uulo", "zulo"]
  {
    var ps := ["hi", "hulu", "hali", "hoho", "amaz", "zulo", "blah", "hopp", "uulo", "aulo"];
    var s := ScaledScore(0.75);
    HuloQualifying(sc, ps);
    TiedPopOrder(s);
    assert Words([Entry(s, "aulo"), Entry(s, "hulu"), Entry(s, "uulo"), Entry(s, "zulo")])
        == ["aulo", "hulu", "uulo", "zulo"];
  }

  /** Four pushes of equal score pop in lexicographic order, whatever their push order. */
  lemma TiedPopOrder(s: nat)
    ensures PopOrder([Entry(s, "hulu"), Entry(s, "zulo"), Entry(s, "uulo"), Entry(s, "aulo")])
         == [Entry(s, "aulo"), Entry(s, "hulu"), Entry(s, "uulo"), Entry(s, "zulo")]
  {
    var q := [Entry(s, "hulu"), Entry(s, "zulo"), Entry(s, "uulo"), Entry(s, "aulo")];
    var t := [Entry(s, "aulo"), Entry(s, "hulu"), Entry(s, "uulo"), Entry(s, "zulo")];
    TiedSorted(s);
    assert multiset(q) == multiset(t);
    PopOrderSorted(q);
    PopOrderPermutes(q);
    SortedIsUnique(PopOrder(q), t);
  }

  /** The tied words in lexicographic order are sorted in the heap's order. */
  lemma TiedSorted(s: nat)
    ensures Sorted([Entry(s, "aulo"), Entry(s, "hulu"), Entry(s, "uulo"), Entry(s, "zulo")])
  {
    assert Lexicographic.Less("aulo", "hulu") && Lexicographic.Less("hulu", "uulo") && Lexicographic.Less("uulo", "zulo");
    assert Lexicographic.Less("aulo", "uulo") && Lexicographic.Less("aulo", "zulo") && Lexicographic.Less("hulu", "zulo");
  }

  /** The pushes of the tie test: the four tied words, in input order. */
  lemma HuloQualifying(sc: Scoring, ps: seq<string>)
    requires ps == ["hi", "hulu", "hali", "hoho", "amaz", "zulo", "blah", "hopp", "uulo", "aulo"]
    requires forall w :: w in ["hulu", "zulo", "uulo", "aulo"] ==>
      PrefiltersPass(sc, "hulo", 0.7, w) && ExactRatio(sc, "hulo", w) == 0.75
    requires forall w :: w in ["hi", "hali", "hoho", "amaz", "blah", "hopp"] ==> ExactRatio(sc, "hulo", w) < 0.7
    ensures var s := ScaledScore(0.75);
      Qualifying(sc, "hulo", 0.7, ps) == [Entry(s, "hulu"), Entry(s, "zulo"), Entry(s, "uulo"), Entry(s, "aulo")]
  {
    assert ps[..0] == [];
    for i := 0 to 10
      invariant Qualifying(sc, "hulo", 0.7, ps[..i]) == HuloPushes(i)
    {
      QualifyingStep(sc, "hulo", 0.7, ps, i);
      if ps[i] in ["hulu", "zulo", "uulo", "aulo"] {
        assert Passes(sc, "hulo", 0.7, ps[i]);
      } else {
        assert ps[i] in ["hi", "hali", "hoho", "amaz", "blah", "hopp"];
        assert !Passes(sc, "hulo", 0.7, ps[i]);
      }
    }
    assert ps[..10] == ps;
  }

  /** The entries that the tie test pushes after `i` possibilities. */
  ghost function HuloPushes(i: nat): seq<Entry> {
    var s := ScaledScore(0.75);
    if i < 2 then [] else if i < 6 then [Entry(s, "hulu")] else if i < 9 then [Entry(s, "hulu"), Entry(s, "zulo")]
    else if i < 10 then [Entry(s, "hulu"), Entry(s, "zulo"), Entry(s, "uulo")]
    else [Entry(s, "hulu"), Entry(s, "zulo"), Entry(s, "uulo"), Entry(s, "aulo")]
  }

  /** One more possibility adds its key to the pushes exactly when it passes. */
  lemma QualifyingStep(sc: Scoring, word: string, cutoff: real, ps: seq<string>, i: nat)
    requires i < |ps|
    ensures Qualifying(sc, word, cutoff, ps[..i + 1])
         == if Passes(sc, word, cutoff, ps[i]) then Qualifying(sc, word, cutoff, ps[..i]) + [KeyOf(sc, word, ps[i])]
            else Qualifying(sc, word, cutoff, ps[..i])
  {
    assert ps[..i + 1][..i] == ps[..i];
  }

  /** `get_close_matches(word, possibilities, n, cutoff)`. */
  method GetCloseMatches(word: string, possibilities: seq<string>, n: nat, cutoff: real, sc: Scoring)
    returns (rv: seq<string>)
    ensures rv == TopMatches(sc, word, possibilities, n, cutoff)
  {
    var matches := new MatchHeap();
    var seq1 := sc.tokenizer.tokenizeChars(word);

    for i := 0 to |possibilities|
      invariant matches.Valid()
      invariant matches.entries == PopOrder(Qualifying(sc, word, cutoff, possibilities[..i]))
    {
      var possibility := possibilities[i];
      QualifyingStep(sc, word, cutoff, possibilities, i);
      var seq2 := sc.tokenizer.tokenizeChars(possibility);

      if sc.upperSeqRatio(seq1, seq2) < cutoff || sc.quickRatio(seq1, seq2) < cutoff {
        assert !PrefiltersPass(sc, word, cutoff, possibility);
        continue;
      }

      var diff := FromSlices(seq1, seq2, sc.engine);
      var ratio := diff.Ratio(sc.engine);
      assert ratio == ExactRatio(sc, word, possibility);
      if ratio >= cutoff {
        PopOrderStep(Qualifying(sc, word, cutoff, possibilities[..i]), KeyOf(sc, word, possibility));
        matches.Push(Entry(ScaledScore(ratio), possibility));
      }
    }
    assert possibilities[..|possibilities|] == possibilities;

    ghost var all := matches.entries;
    rv := [];
    for i := 0 to n
      invariant matches.Valid()
      invariant i <= |all| && matches.entries == all[i..]
      invariant rv == Words(all[..i])
    {
      var top := matches.Pop();
      if top.None? {
        assert all[..i] == all;
        break;
      }
      assert all[..i + 1] == all[..i] + [all[i]];
      rv := rv + [top.value.word];
    }
  }
}
