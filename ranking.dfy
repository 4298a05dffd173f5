/**
 * The priority queue `get_close_matches` fills: a max-heap of
 * `(scaled_score, Reverse(word))` pairs.  Tuple order compares the score
 * first and then the reversed word, so the greatest entry has the highest
 * score and, among equal scores, the lexicographically smallest word.
 *
 * The heap is modelled by the sequence of its entries in the order `pop`
 * yields them; entries that compare equal are identical values, so that
 * sequence is fully determined by the multiset of pushed entries.
 */
module Ranking {
  import opened Wrappers
  import Lexicographic

  /** One heap element: the scaled ratio and the candidate word. */
  datatype Entry = Entry(score: nat, word: string)

  /** `a` is strictly greater than `b` in the heap's order. */
  predicate RanksAbove(a: Entry, b: Entry) {
    a.score > b.score || (a.score == b.score && Lexicographic.Less(a.word, b.word))
  }

  /** `a` is greater than or equal to `b` in the heap's order. */
  predicate AtLeast(a: Entry, b: Entry) {
    a.score > b.score || (a.score == b.score && Lexicographic.LessOrEqual(a.word, b.word))
  }

  /** The non-strict order is exactly the negation of the strict one, reversed. */
  lemma AtLeastIffNotBelow(a: Entry, b: Entry)
    ensures AtLeast(a, b) <==> !RanksAbove(b, a)
  {
    Lexicographic.LessTrichotomy(a.word, b.word);
    if Lexicographic.Less(a.word, b.word) {
      Lexicographic.LessAsymmetric(a.word, b.word);
    }
    Lexicographic.LessIrreflexive(a.word);
  }

  lemma AtLeastTransitive(a: Entry, b: Entry, c: Entry)
    requires AtLeast(a, b) && AtLeast(b, c)
    ensures AtLeast(a, c)
  {
    if a.score == b.score == c.score && a.word != b.word && b.word != c.word {
      Lexicographic.LessTransitive(a.word, b.word, c.word);
    }
  }

  /** Entries in pop order: each one at least as great as every later one. */
  ghost predicate Sorted(s: seq<Entry>) {
    forall i, j :: 0 <= i < j < |s| ==> AtLeast(s[i], s[j])
  }

  /** Places `e` after every entry at least as great as it. */
  function Insert(e: Entry, s: seq<Entry>): (r: seq<Entry>)
    ensures |r| == |s| + 1
  {
    if s == [] then [e]
    else if AtLeast(s[0], e) then [s[0]] + Insert(e, s[1..])
    else [e] + s
  }

  lemma {:induction false} InsertPermutes(e: Entry, s: seq<Entry>)
    ensures multiset(Insert(e, s)) == multiset(s) + multiset{e}
  {
    if s != [] && AtLeast(s[0], e) {
      InsertPermutes(e, s[1..]);
      assert s == [s[0]] + s[1..];
    }
  }

  lemma {:induction false} InsertKeepsSorted(e: Entry, s: seq<Entry>)
    requires Sorted(s)
    ensures Sorted(Insert(e, s))
  {
    if s != [] {
      if AtLeast(s[0], e) {
        InsertKeepsSorted(e, s[1..]);
        InsertPermutes(e, s[1..]);
        var r := Insert(e, s);
        forall j | 0 < j < |r| ensures AtLeast(r[0], r[j]) {
          assert r[j] in multiset(Insert(e, s[1..]));
          assert r[j] == e || r[j] in s[1..];
        }
      } else {
        AtLeastIffNotBelow(s[0], e);
        var r := Insert(e, s);
        forall j | 0 < j < |r| ensures AtLeast(r[0], r[j]) {
          AtLeastIffNotBelow(e, s[0]);
          if j > 1 {
            AtLeastTransitive(e, s[0], r[j]);
          }
        }
      }
    }
  }

  /** The entries' words, in the same order. */
  function Words(s: seq<Entry>): seq<string>
  {
    seq(|s|, k requires 0 <= k < |s| => s[k].word)
  }

  lemma WordsAppend(a: seq<Entry>, b: seq<Entry>)
    ensures Words(a + b) == Words(a) + Words(b)
  {
  }

  lemma {:induction false} InsertWords(e: Entry, s: seq<Entry>)
    ensures multiset(Words(Insert(e, s))) == multiset(Words(s)) + multiset{e.word}
  {
    if s == [] {
      assert Words([e]) == [e.word];
    } else if AtLeast(s[0], e) {
      InsertWords(e, s[1..]);
      WordsAppend([s[0]], Insert(e, s[1..]));
      WordsAppend([s[0]], s[1..]);
      assert s == [s[0]] + s[1..];
      assert Words([s[0]]) == [s[0].word];
    } else {
      WordsAppend([e], s);
      assert Words([e]) == [e.word];
    }
  }

  /** The order in which a heap that received the pushes `s`, first to last, pops them. */
  function PopOrder(s: seq<Entry>): seq<Entry>
  {
    if s == [] then [] else Insert(s[|s| - 1], PopOrder(s[..|s| - 1]))
  }

  /** The pop order holds exactly the pushed entries. */
  lemma {:induction false} PopOrderPermutes(s: seq<Entry>)
    ensures |PopOrder(s)| == |s|
    ensures multiset(PopOrder(s)) == multiset(s)
  {
    if s != [] {
      var init, last := s[..|s| - 1], s[|s| - 1];
      PopOrderPermutes(init);
      InsertPermutes(last, PopOrder(init));
      assert s == init + [last];
    }
  }

  /** The pop order is sorted. */
  lemma {:induction false} PopOrderSorted(s: seq<Entry>)
    ensures Sorted(PopOrder(s))
  {
    if s != [] {
      PopOrderSorted(s[..|s| - 1]);
      InsertKeepsSorted(s[|s| - 1], PopOrder(s[..|s| - 1]));
    }
  }

  /** The pop order holds exactly the pushed words. */
  lemma {:induction false} PopOrderWords(s: seq<Entry>)
    ensures multiset(Words(PopOrder(s))) == multiset(Words(s))
  {
    if s != [] {
      var init, last := s[..|s| - 1], s[|s| - 1];
      PopOrderWords(init);
      InsertWords(last, PopOrder(init));
      assert s == init + [last];
      WordsAppend(init, [last]);
      assert Words([last]) == [last.word];
    }
  }

  /** The pop order is a sorted permutation of the pushes, and so are its words. */
  lemma PopOrderSortedPermutation(s: seq<Entry>)
    ensures |PopOrder(s)| == |s| && Sorted(PopOrder(s))
    ensures multiset(PopOrder(s)) == multiset(s)
    ensures multiset(Words(PopOrder(s))) == multiset(Words(s))
  {
    PopOrderPermutes(s);
    PopOrderSorted(s);
    PopOrderWords(s);
  }

  /** The pop order depends only on which entries were pushed, not on the order of the pushes. */
  lemma PopOrderDependsOnMultiset(s: seq<Entry>, t: seq<Entry>)
    requires multiset(s) == multiset(t)
    ensures PopOrder(s) == PopOrder(t)
  {
    PopOrderSortedPermutation(s);
    PopOrderSortedPermutation(t);
    SortedIsUnique(PopOrder(s), PopOrder(t));
  }

  /** Pushing one more entry inserts it into the pop order. */
  lemma PopOrderStep(q: seq<Entry>, e: Entry)
    ensures PopOrder(q + [e]) == Insert(e, PopOrder(q))
  {
    assert (q + [e])[..|q|] == q;
  }

  lemma AtLeastAntisymmetric(a: Entry, b: Entry)
    requires AtLeast(a, b) && AtLeast(b, a)
    ensures a == b
  {
    if a.word != b.word {
      Lexicographic.LessAsymmetric(a.word, b.word);
    }
  }

  /** The first entry of a sorted sequence is at least as great as every entry of it. */
  lemma SortedHeadIsGreatest(s: seq<Entry>, x: Entry)
    requires Sorted(s) && x in s
    ensures AtLeast(s[0], x)
  {
    var k :| 0 <= k < |s| && s[k] == x;
    if k == 0 {
      Lexicographic.LessIrreflexive(x.word);
    }
  }

  /** Two sorted sequences with the same elements start with the same entry. */
  lemma SortedSameHead(s: seq<Entry>, t: seq<Entry>)
    requires Sorted(s) && Sorted(t) && multiset(s) == multiset(t) && s != []
    ensures t != [] && s[0] == t[0]
  {
    assert s[0] in multiset(t);
    assert t[0] in multiset(s);
    SortedHeadIsGreatest(t, s[0]);
    SortedHeadIsGreatest(s, t[0]);
    AtLeastAntisymmetric(s[0], t[0]);
  }

  /** Removing equal heads leaves equal multisets of the rest. */
  lemma SameTails(s: seq<Entry>, t: seq<Entry>)
    requires s != [] && t != [] && s[0] == t[0] && multiset(s) == multiset(t)
    ensures multiset(s[1..]) == multiset(t[1..])
  {
    assert multiset(s) == multiset{s[0]} + multiset(s[1..]) by { assert s == [s[0]] + s[1..]; }
    assert multiset(t) == multiset{t[0]} + multiset(t[1..]) by { assert t == [t[0]] + t[1..]; }
    assert multiset(s[1..]) == multiset(s) - multiset{s[0]};
    assert multiset(t[1..]) == multiset(t) - multiset{t[0]};
  }

  /**
   * Two sorted sequences with the same elements are equal: the pop order of a
   * heap depends only on the multiset of entries it holds.
   */
  lemma {:induction false} SortedIsUnique(s: seq<Entry>, t: seq<Entry>)
    requires Sorted(s) && Sorted(t) && multiset(s) == multiset(t)
    ensures s == t
    decreases |s|
  {
    if s == [] {
      assert |multiset(t)| == 0;
    } else {
      SortedSameHead(s, t);
      SameTails(s, t);
      SortedIsUnique(s[1..], t[1..]);
      assert s == [s[0]] + s[1..];
      assert t == [t[0]] + t[1..];
    }
  }

  /**
   * `BinaryHeap<(u32, Reverse<&str>)>` as `get_close_matches` uses it.
   * `entries` lists the elements in the order `pop` returns them.
   */
  class MatchHeap {
    var entries: seq<Entry>

    ghost predicate Valid()
      reads this
    {
      Sorted(entries)
    }

    /** `BinaryHeap::new()`. */
    constructor ()
      ensures Valid() && entries == []
    {
      entries := [];
    }

    /** `BinaryHeap::push`. */
    method Push(e: Entry)
      requires Valid()
      modifies this
      ensures Valid()
      ensures entries == Insert(e, old(entries))
    {
      var i := 0;
      while i < |entries| && AtLeast(entries[i], e)
        invariant 0 <= i <= |entries|
        invariant Insert(e, entries) == entries[..i] + Insert(e, entries[i..])
      {
        assert entries[i..][1..] == entries[i + 1..];
        assert entries[..i + 1] == entries[..i] + [entries[i]];
        i := i + 1;
      }
      assert Insert(e, entries[i..]) == [e] + entries[i..];
      InsertKeepsSorted(e, entries);
      ghost var inserted := Insert(e, entries);
      entries := entries[..i] + [e] + entries[i..];
      assert entries == inserted;
    }

    /** `BinaryHeap::pop`: the greatest entry, or `None` when the heap is empty. */
    method Pop() returns (top: Option<Entry>)
      requires Valid()
      modifies this
      ensures Valid()
      ensures old(entries) == [] ==> top == None && entries == []
      ensures old(entries) != [] ==> top == Some(old(entries)[0]) && entries == old(entries)[1..]
      ensures top.Some? ==> forall x :: x in old(entries) ==> AtLeast(top.value, x)
    {
      if entries == [] {
        top := None;
      } else {
        top := Some(entries[0]);
        forall x | x in entries ensures AtLeast(entries[0], x) {
          SortedHeadIsGreatest(entries, x);
        }
        entries := entries[1..];
      }
    }
  }
}
