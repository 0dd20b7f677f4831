/** The ranking step of vocabulary (word_embedding/helper.py): the (word, count)
    items are sorted by descending count with Python's stable sorted(..., reverse=True),
    then cut down to voc_threshold entries when that value is a positive integer. */
module Ranking {

  /** One (word, count) item of the count dict. */
  datatype Entry = Entry(word: string, count: nat)

  /** voc_threshold: None, or an integer. */
  datatype Option<T> = None | Some(value: T)

  predicate NonIncreasing(s: seq<Entry>)
  {
    forall i, j :: 0 <= i < j < |s| ==> s[i].count >= s[j].count
  }

  predicate DistinctWords(s: seq<Entry>)
  {
    forall i, j :: 0 <= i < j < |s| ==> s[i].word != s[j].word
  }

  /** a comes before b: a larger count, or the same count and a smaller rank. */
  predicate Outranks(a: Entry, b: Entry, rank: string -> int)
  {
    a.count > b.count || (a.count == b.count && rank(a.word) < rank(b.word))
  }

  /** s is ordered by descending count, and by ascending rank among equal counts. */
  predicate RankOrdered(s: seq<Entry>, rank: string -> int)
  {
    forall i, j :: 0 <= i < j < |s| ==> Outranks(s[i], s[j], rank)
  }

  /** Inserts e in front of the first entry whose count is not larger than e's. */
  function InsertByCount(e: Entry, s: seq<Entry>): (r: seq<Entry>)
    ensures multiset(r) == multiset(s) + multiset{e}
  {
    if s == [] || e.count >= s[0].count then [e] + s
    else
      assert s == [s[0]] + s[1..];
      [s[0]] + InsertByCount(e, s[1..])
  }

  /** sorted(items, key=count, reverse=True): a stable insertion sort by descending count. */
  function SortByCount(s: seq<Entry>): (r: seq<Entry>)
    ensures multiset(r) == multiset(s)
    ensures NonIncreasing(r)
  {
    if s == [] then []
    else
      assert s == [s[0]] + s[1..];
      var sorted := SortByCount(s[1..]);
      InsertKeepsNonIncreasing(s[0], sorted);
      InsertByCount(s[0], sorted)
  }

  /** The condition `voc_threshold and voc_threshold > 0`: None and every
      integer up to 0 mean no limit. */
  predicate Limited(threshold: Option<int>)
  {
    threshold.Some? && threshold.value > 0
  }

  function Min(a: int, b: int): int { if a <= b then a else b }

  /** The slice [:voc_threshold], taken only under a limit; a slice longer than
      the list keeps all of it. */
  function Truncate(s: seq<Entry>, threshold: Option<int>): (r: seq<Entry>)
    ensures |r| == if Limited(threshold) then Min(threshold.value, |s|) else |s|
    ensures r == s[..|r|]
  {
    if Limited(threshold) then s[..Min(threshold.value, |s|)] else s
  }

  // ---------------------------------------------------------------------------
  // Lemmas

  /** Inserting into a list sorted by descending count keeps it sorted. */
  lemma {:induction false} InsertKeepsNonIncreasing(e: Entry, s: seq<Entry>)
    requires NonIncreasing(s)
    ensures NonIncreasing(InsertByCount(e, s))
  {
    if s != [] && e.count < s[0].count {
      InsertKeepsNonIncreasing(e, s[1..]);
      var tail := InsertByCount(e, s[1..]);
      forall k | 0 <= k < |tail| ensures s[0].count >= tail[k].count {
        assert tail[k] in multiset(s[1..]) + multiset{e};
      }
    }
  }

  lemma {:induction false} InsertKeepsDistinctWords(e: Entry, s: seq<Entry>)
    requires DistinctWords(s)
    requires forall k :: 0 <= k < |s| ==> s[k].word != e.word
    ensures DistinctWords(InsertByCount(e, s))
  {
    if s != [] && e.count < s[0].count {
      InsertKeepsDistinctWords(e, s[1..]);
      var tail := InsertByCount(e, s[1..]);
      forall k | 0 <= k < |tail| ensures tail[k].word != s[0].word {
        assert tail[k] in multiset(s[1..]) + multiset{e};
      }
    }
  }

  /** Sorting keeps the words distinct when they were distinct. */
  lemma {:induction false} SortKeepsDistinctWords(s: seq<Entry>)
    requires DistinctWords(s)
    ensures DistinctWords(SortByCount(s))
  {
    if s != [] {
      SortKeepsDistinctWords(s[1..]);
      var sorted := SortByCount(s[1..]);
      forall k | 0 <= k < |sorted| ensures sorted[k].word != s[0].word {
        assert sorted[k] in multiset(s[1..]);
      }
      InsertKeepsDistinctWords(s[0], sorted);
    }
  }

  lemma ConsRankOrdered(x: Entry, s: seq<Entry>, rank: string -> int)
    requires RankOrdered(s, rank)
    requires forall k :: 0 <= k < |s| ==> Outranks(x, s[k], rank)
    ensures RankOrdered([x] + s, rank)
  {
    var r := [x] + s;
    forall i, j | 0 <= i < j < |r| ensures Outranks(r[i], r[j], rank) {
      assert r[j] == s[j - 1];
      if i > 0 {
        assert r[i] == s[i - 1];
      }
    }
  }

  lemma {:induction false} InsertRankOrdered(e: Entry, s: seq<Entry>, rank: string -> int)
    requires RankOrdered(s, rank)
    requires forall k :: 0 <= k < |s| ==> rank(e.word) < rank(s[k].word)
    ensures RankOrdered(InsertByCount(e, s), rank)
  {
    if s == [] || e.count >= s[0].count {
      forall k | 0 <= k < |s| ensures Outranks(e, s[k], rank) {
        if k > 0 {
          assert Outranks(s[0], s[k], rank);
        }
      }
      ConsRankOrdered(e, s, rank);
    } else {
      var tail := InsertByCount(e, s[1..]);
      assert RankOrdered(s[1..], rank) by {
        forall i, j | 0 <= i < j < |s[1..]| ensures Outranks(s[1..][i], s[1..][j], rank) {
          assert Outranks(s[i + 1], s[j + 1], rank);
        }
      }
      InsertRankOrdered(e, s[1..], rank);
      forall k | 0 <= k < |tail| ensures Outranks(s[0], tail[k], rank) {
        assert tail[k] in multiset(s[1..]) + multiset{e};
        if tail[k] != e {
          var m :| 0 <= m < |s[1..]| && s[1..][m] == tail[k];
          assert Outranks(s[0], s[m + 1], rank);
        }
      }
      ConsRankOrdered(s[0], tail, rank);
    }
  }

  /** Stability: when the input is in increasing rank order (for the count dict,
      first-occurrence order), the sorted list breaks ties of count by that order. */
  lemma {:induction false} SortIsStable(s: seq<Entry>, rank: string -> int)
    requires forall i, j :: 0 <= i < j < |s| ==> rank(s[i].word) < rank(s[j].word)
    ensures RankOrdered(SortByCount(s), rank)
  {
    if s != [] {
      SortIsStable(s[1..], rank);
      var sorted := SortByCount(s[1..]);
      forall k | 0 <= k < |sorted| ensures rank(s[0].word) < rank(sorted[k].word) {
        assert sorted[k] in multiset(s[1..]);
      }
      InsertRankOrdered(s[0], sorted, rank);
    }
  }
}
