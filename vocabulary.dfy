/** vocabulary(corpus, voc_threshold) (word_embedding/helper.py): count the
    tokens, sort the items by descending count, keep the first voc_threshold
    of them under a limit, append ('UNK', 1), and project the list into a
    word -> index dict and a word -> count dict. */
module Vocabulary {
  import opened Tokenizer
  import opened WordCounts
  import opened Ranking

  /** The reserved out-of-vocabulary word appended to every vocabulary. */
  const Unk: string := "UNK"

  /** The items of the count dict, in key order: each distinct token with its count. */
  function CountTable(corpus: seq<string>): (table: seq<Entry>)
  {
    var t := AllTokens(corpus);
    var d := Distinct(t);
    seq(|d|, i requires 0 <= i < |d| => Entry(d[i], Occurrences(t, d[i])))
  }

  /** word_counts.items(): the dict given by its key order and its key -> count map. */
  function Items(order: seq<string>, counts: map<string, nat>): (items: seq<Entry>)
    requires forall w :: w in order ==> w in counts
    ensures |items| == |order|
    ensures forall i :: 0 <= i < |order| ==> items[i] == Entry(order[i], counts[order[i]])
  {
    seq(|order|, i requires 0 <= i < |order| => Entry(order[i], counts[order[i]]))
  }

  /** The final list sorted_word_counts: ranked items, truncated, then ('UNK', 1). */
  function Ranked(corpus: seq<string>, threshold: Option<int>): seq<Entry>
  {
    Truncate(SortByCount(CountTable(corpus)), threshold) + [Entry(Unk, 1)]
  }

  /** The vocabulary dict returned by vocabulary(corpus, voc_threshold). */
  function VocabularyOf(corpus: seq<string>, threshold: Option<int>): map<string, nat>
  {
    IndexMap(Ranked(corpus, threshold))
  }

  /** The vocabulary_word_counts dict returned by vocabulary(corpus, voc_threshold). */
  function WordCountsOf(corpus: seq<string>, threshold: Option<int>): map<string, nat>
  {
    CountMap(Ranked(corpus, threshold))
  }

  /** {word: index for index, (word, _) in enumerate(s)}: every word of s is a
      key, mapped to a position that holds it (the last one, as later entries
      override earlier ones). */
  function IndexMap(s: seq<Entry>): (m: map<string, nat>)
    ensures forall i :: 0 <= i < |s| ==> s[i].word in m
    ensures forall w :: w in m ==> m[w] < |s| && s[m[w]].word == w
  {
    if s == [] then map[]
    else IndexMap(s[..|s| - 1])[s[|s| - 1].word := |s| - 1]
  }

  /** {word: count for word, count in s}: the same keys as IndexMap, each with
      the count of the entry that IndexMap points at. */
  function CountMap(s: seq<Entry>): (m: map<string, nat>)
    ensures forall w :: w in m <==> w in IndexMap(s)
    ensures forall w :: w in m ==> m[w] == s[IndexMap(s)[w]].count
  {
    if s == [] then map[]
    else
      var s' := s[..|s| - 1];
      assert forall w :: w in IndexMap(s') ==> IndexMap(s)[w] == IndexMap(s')[w] || w == s[|s| - 1].word;
      CountMap(s')[s[|s| - 1].word := s[|s| - 1].count]
  }

  /** First-occurrence rank of a word in the tokens; words that never occur come last. */
  function FirstSeen(t: seq<string>, w: string): int
  {
    if w in t then FirstIndex(t, w) else |t|
  }

  /** vocabulary(corpus, voc_threshold). */
  method BuildVocabulary(corpus: seq<string>, threshold: Option<int>)
    returns (vocabulary: map<string, nat>, wordCounts: map<string, nat>)
    ensures vocabulary == VocabularyOf(corpus, threshold)
    ensures wordCounts == WordCountsOf(corpus, threshold)
    ensures vocabulary.Keys == wordCounts.Keys
    ensures Unk in vocabulary && vocabulary[Unk] == |vocabulary| - 1 && wordCounts[Unk] == 1
    ensures forall w :: CorpusKey(wordCounts, w) ==> CountsOccurrences(wordCounts, AllTokens(corpus), w)
  {
    var order, counts := CountWords(corpus);
    var items := Items(order, counts);
    assert items == CountTable(corpus);
    var sorted := SortByCount(items);
    if Limited(threshold) {
      sorted := sorted[..Min(threshold.value, |sorted|)];
    }
    sorted := sorted + [Entry(Unk, 1)];
    vocabulary := IndexMap(sorted);
    wordCounts := CountMap(sorted);
    UnkIsLast(corpus, threshold);
    CountsAreOccurrences(corpus, threshold);
  }

  // ---------------------------------------------------------------------------
  // Lemmas about the dict projections

  /** With distinct words, the entry at position i is indexed by i and keeps its count. */
  lemma {:induction false} MapsAt(s: seq<Entry>, i: nat)
    requires DistinctWords(s) && i < |s|
    ensures IndexMap(s)[s[i].word] == i
    ensures CountMap(s)[s[i].word] == s[i].count
  {
    var s' := s[..|s| - 1];
    if i < |s| - 1 {
      MapsAt(s', i);
      assert s'[i] == s[i];
    }
  }

  /** With distinct words, the dicts have one key per entry. */
  lemma {:induction false} MapSizeOfDistinct(s: seq<Entry>)
    requires DistinctWords(s)
    ensures |IndexMap(s)| == |CountMap(s)| == |s|
  {
    if s != [] {
      var s' := s[..|s| - 1];
      MapSizeOfDistinct(s');
      assert s[|s| - 1].word !in IndexMap(s');
      assert IndexMap(s).Keys == CountMap(s).Keys;
    }
  }

  /** Both projections have the same keys. */
  lemma SameKeys(s: seq<Entry>)
    ensures IndexMap(s).Keys == CountMap(s).Keys
  {
    assert forall w :: w in IndexMap(s).Keys <==> w in CountMap(s).Keys;
  }

  /** A one-entry list projects to one-key dicts. */
  lemma SingleEntryMaps(e: Entry)
    ensures IndexMap([e]) == map[e.word := 0]
    ensures CountMap([e]) == map[e.word := e.count]
  {
    assert [e][..0] == [];
  }

  /** voc maps the words of s to their positions: one key per entry, the indices
      are 0 .. |s|-1, and no two keys share one. */
  predicate DenseIndex(voc: map<string, nat>, s: seq<Entry>)
  {
    && |voc| == |s|
    && (forall i :: 0 <= i < |s| ==> s[i].word in voc && voc[s[i].word] == i)
    && (forall w :: w in voc ==> voc[w] < |voc|)
    && (forall w, v :: w in voc && v in voc && w != v ==> voc[w] != voc[v])
  }

  /** With distinct words, the index dict is dense. */
  lemma IndexMapDense(s: seq<Entry>)
    requires DistinctWords(s)
    ensures DenseIndex(IndexMap(s), s)
  {
    MapSizeOfDistinct(s);
    forall i | 0 <= i < |s| ensures IndexMap(s)[s[i].word] == i {
      MapsAt(s, i);
    }
  }

  /** With distinct words, a key sits at the position its index names, with its count. */
  lemma PositionOf(s: seq<Entry>, w: string) returns (i: nat)
    requires DistinctWords(s) && w in IndexMap(s)
    ensures i < |s| && s[i].word == w
    ensures IndexMap(s)[w] == i && CountMap(s)[w] == s[i].count
  {
    i := IndexMap(s)[w];
    MapsAt(s, i);
  }

  // ---------------------------------------------------------------------------
  // Lemmas about the count table and the sorted list

  /** A corpus token is made of lowercase letters, so it is never "UNK". */
  lemma UnkIsNotAToken(corpus: seq<string>)
    ensures Unk !in AllTokens(corpus)
  {
    TokensAreLowercaseWords(corpus);
    assert !IsLetter(Unk[0]);
  }

  /** The count table lists the distinct tokens in first-occurrence order. */
  lemma CountTableInFirstSeenOrder(corpus: seq<string>)
    ensures var t := AllTokens(corpus);
            forall i, j :: 0 <= i < j < |CountTable(corpus)| ==>
              FirstSeen(t, CountTable(corpus)[i].word) < FirstSeen(t, CountTable(corpus)[j].word)
  {
    DistinctInFirstOccurrenceOrder(AllTokens(corpus));
  }

  /** Sorting the count table keeps its words distinct and its length. */
  lemma SortedDistinct(corpus: seq<string>)
    ensures DistinctWords(SortByCount(CountTable(corpus)))
    ensures |SortByCount(CountTable(corpus))| == |Distinct(AllTokens(corpus))|
  {
    var table := CountTable(corpus);
    var sorted := SortByCount(table);
    assert DistinctWords(table);
    SortKeepsDistinctWords(table);
    assert |sorted| == |multiset(sorted)| == |multiset(table)| == |table|;
  }

  /** Every entry of the sorted list is a corpus word with its number of occurrences. */
  lemma SortedEntry(corpus: seq<string>, e: Entry)
    requires e in SortByCount(CountTable(corpus))
    ensures e.word in AllTokens(corpus) && e.count == Occurrences(AllTokens(corpus), e.word)
  {
    assert e in multiset(SortByCount(CountTable(corpus)));
    var table := CountTable(corpus);
    var k :| 0 <= k < |table| && table[k] == e;
  }

  /** Where a corpus word sits in the sorted list. */
  lemma PositionInSorted(corpus: seq<string>, w: string) returns (j: nat)
    requires w in AllTokens(corpus)
    ensures var sorted := SortByCount(CountTable(corpus));
            j < |sorted| && sorted[j] == Entry(w, Occurrences(AllTokens(corpus), w))
  {
    var t := AllTokens(corpus);
    var d := Distinct(t);
    var table := CountTable(corpus);
    var k :| 0 <= k < |d| && d[k] == w;
    assert table[k] == Entry(w, Occurrences(t, w));
    assert table[k] in multiset(table);
    var sorted := SortByCount(table);
    assert Entry(w, Occurrences(t, w)) in multiset(sorted);
    j :| 0 <= j < |sorted| && sorted[j] == Entry(w, Occurrences(t, w));
  }

  /** The sorted list is ordered by descending count, then by first occurrence. */
  lemma SortedRankOrdered(corpus: seq<string>)
    ensures var t := AllTokens(corpus);
            RankOrdered(SortByCount(CountTable(corpus)), w => FirstSeen(t, w))
  {
    var t := AllTokens(corpus);
    CountTableInFirstSeenOrder(corpus);
    SortIsStable(CountTable(corpus), w => FirstSeen(t, w));
  }

  // ---------------------------------------------------------------------------
  // Lemmas about the final list and the two dicts

  /** The final list is a prefix of the sorted list followed by ('UNK', 1). */
  lemma RankedLayout(corpus: seq<string>, threshold: Option<int>)
    ensures var sorted := SortByCount(CountTable(corpus));
            var kept := Truncate(sorted, threshold);
            var r := Ranked(corpus, threshold);
            && |r| == |kept| + 1 <= |sorted| + 1
            && (forall i :: 0 <= i < |kept| ==> r[i] == sorted[i])
            && r[|kept|] == Entry(Unk, 1)
  {
  }

  /** No word appears twice in the final list, "UNK" included. */
  lemma RankedDistinct(corpus: seq<string>, threshold: Option<int>)
    ensures DistinctWords(Ranked(corpus, threshold))
  {
    var sorted := SortByCount(CountTable(corpus));
    var kept := Truncate(sorted, threshold);
    var r := Ranked(corpus, threshold);
    SortedDistinct(corpus);
    UnkIsNotAToken(corpus);
    forall i, j | 0 <= i < j < |r| ensures r[i].word != r[j].word {
      if j == |kept| {
        SortedEntry(corpus, sorted[i]);
      } else {
        assert r[i] == sorted[i] && r[j] == sorted[j];
      }
    }
  }

  /** Where a word of the vocabulary sits in the final list: at its index, with its
      count; a corpus word sits in the kept part, at the same place as in the sorted list. */
  lemma PositionInRanked(corpus: seq<string>, threshold: Option<int>, w: string) returns (i: nat)
    requires w in VocabularyOf(corpus, threshold)
    ensures var r := Ranked(corpus, threshold);
            && i < |r| && r[i].word == w
            && VocabularyOf(corpus, threshold)[w] == i
            && WordCountsOf(corpus, threshold)[w] == r[i].count
    ensures w != Unk ==>
              var sorted := SortByCount(CountTable(corpus));
              i < |Truncate(sorted, threshold)| && Ranked(corpus, threshold)[i] == sorted[i]
  {
    RankedDistinct(corpus, threshold);
    i := PositionOf(Ranked(corpus, threshold), w);
    RankedLayout(corpus, threshold);
  }

  /** Both dicts have the same keys, and the indices are exactly 0 .. n-1 for the
      n entries of the final list, in list order, each used once. */
  lemma IndicesAreDense(corpus: seq<string>, threshold: Option<int>)
    ensures DenseIndex(VocabularyOf(corpus, threshold), Ranked(corpus, threshold))
    ensures VocabularyOf(corpus, threshold).Keys == WordCountsOf(corpus, threshold).Keys
  {
    RankedDistinct(corpus, threshold);
    IndexMapDense(Ranked(corpus, threshold));
    SameKeys(Ranked(corpus, threshold));
  }

  /** "UNK" is always present, last, with count 1, whether or not anything was cut. */
  lemma UnkIsLast(corpus: seq<string>, threshold: Option<int>)
    ensures var voc, counts := VocabularyOf(corpus, threshold), WordCountsOf(corpus, threshold);
            && Unk in voc && voc[Unk] == |voc| - 1
            && Unk in counts && counts[Unk] == 1
            && voc.Keys == counts.Keys
  {
    var r := Ranked(corpus, threshold);
    RankedDistinct(corpus, threshold);
    MapSizeOfDistinct(r);
    MapsAt(r, |r| - 1);
    SameKeys(r);
  }

  /** w is a key of the dict other than "UNK". */
  predicate CorpusKey(m: map<string, nat>, w: string)
  {
    w in m && w != Unk
  }

  /** counts[w] is the number of occurrences of w in the tokens t, and w does occur. */
  predicate CountsOccurrences(counts: map<string, nat>, t: seq<string>, w: string)
  {
    w in t && w in counts && counts[w] == Occurrences(t, w) > 0
  }

  /** The count stored for a corpus word is its number of occurrences in the tokenized corpus. */
  lemma CountIsOccurrences(corpus: seq<string>, threshold: Option<int>, w: string)
    requires CorpusKey(WordCountsOf(corpus, threshold), w)
    ensures CountsOccurrences(WordCountsOf(corpus, threshold), AllTokens(corpus), w)
  {
    var i := PositionInRanked(corpus, threshold, w);
    SortedEntry(corpus, SortByCount(CountTable(corpus))[i]);
    OccurrencesPositive(AllTokens(corpus), w);
  }

  /** Every stored count of a corpus word is its number of occurrences in the tokenized corpus. */
  lemma CountsAreOccurrences(corpus: seq<string>, threshold: Option<int>)
    ensures forall w :: CorpusKey(WordCountsOf(corpus, threshold), w) ==>
              CountsOccurrences(WordCountsOf(corpus, threshold), AllTokens(corpus), w)
  {
    forall w | CorpusKey(WordCountsOf(corpus, threshold), w)
      ensures CountsOccurrences(WordCountsOf(corpus, threshold), AllTokens(corpus), w)
    {
      CountIsOccurrences(corpus, threshold, w);
    }
  }

  /** w and v are corpus words of the vocabulary, and w has the smaller index. */
  predicate IndexedBefore(voc: map<string, nat>, w: string, v: string)
  {
    w in voc && w != Unk && v in voc && v != Unk && voc[w] < voc[v]
  }

  /** w and v occur in the tokens t, and w has the larger count, or the same count
      and the earlier first occurrence. */
  predicate RanksBefore(counts: map<string, nat>, t: seq<string>, w: string, v: string)
  {
    && w in t && v in t && w in counts && v in counts
    && (|| counts[w] > counts[v]
        || (counts[w] == counts[v] && FirstIndex(t, w) < FirstIndex(t, v)))
  }

  /** Of two corpus words in the vocabulary, the one with the smaller index has the
      larger count, or the same count and the earlier first occurrence. */
  lemma PairRanked(corpus: seq<string>, threshold: Option<int>, w: string, v: string)
    requires IndexedBefore(VocabularyOf(corpus, threshold), w, v)
    ensures RanksBefore(WordCountsOf(corpus, threshold), AllTokens(corpus), w, v)
  {
    var t := AllTokens(corpus);
    var sorted := SortByCount(CountTable(corpus));
    var i := PositionInRanked(corpus, threshold, w);
    var j := PositionInRanked(corpus, threshold, v);
    SortedEntry(corpus, sorted[i]);
    SortedEntry(corpus, sorted[j]);
    SortedRankOrdered(corpus);
    assert FirstSeen(t, w) == FirstIndex(t, w) && FirstSeen(t, v) == FirstIndex(t, v);
  }

  /** Along index order counts never increase, and equal counts keep the order in
      which the words first occur in the corpus. */
  lemma RankedByCountThenFirstOccurrence(corpus: seq<string>, threshold: Option<int>)
    ensures forall w, v :: IndexedBefore(VocabularyOf(corpus, threshold), w, v) ==>
              RanksBefore(WordCountsOf(corpus, threshold), AllTokens(corpus), w, v)
  {
    forall w, v | IndexedBefore(VocabularyOf(corpus, threshold), w, v)
      ensures RanksBefore(WordCountsOf(corpus, threshold), AllTokens(corpus), w, v)
    {
      PairRanked(corpus, threshold, w, v);
    }
  }

  /** The number of entries: the distinct corpus words, cut to voc_threshold under
      a limit, plus "UNK". */
  lemma VocabularySize(corpus: seq<string>, threshold: Option<int>)
    ensures var n := |Distinct(AllTokens(corpus))|;
            |VocabularyOf(corpus, threshold)| == |WordCountsOf(corpus, threshold)|
            == (if Limited(threshold) then Min(threshold.value, n) else n) + 1
  {
    RankedDistinct(corpus, threshold);
    MapSizeOfDistinct(Ranked(corpus, threshold));
    SortedDistinct(corpus);
  }

  /** d occurs in the tokens t but is not a key of the vocabulary. */
  predicate Dropped(voc: map<string, nat>, t: seq<string>, d: string)
  {
    d in t && d !in voc
  }

  /** A kept word counts at least as much as a corpus word cut by the limit. */
  lemma KeptOutranksDroppedWord(corpus: seq<string>, threshold: Option<int>, w: string, d: string)
    requires CorpusKey(WordCountsOf(corpus, threshold), w)
    requires Dropped(VocabularyOf(corpus, threshold), AllTokens(corpus), d)
    ensures WordCountsOf(corpus, threshold)[w] >= Occurrences(AllTokens(corpus), d)
  {
    var sorted := SortByCount(CountTable(corpus));
    var kept := Truncate(sorted, threshold);
    UnkIsLast(corpus, threshold);
    var i := PositionInRanked(corpus, threshold, w);
    var j := PositionInSorted(corpus, d);
    RankedLayout(corpus, threshold);
  }

  /** Every kept word counts at least as much as every word cut by the limit. */
  lemma KeptOutrankDropped(corpus: seq<string>, threshold: Option<int>)
    ensures forall w, d :: CorpusKey(WordCountsOf(corpus, threshold), w)
                           && Dropped(VocabularyOf(corpus, threshold), AllTokens(corpus), d) ==>
              WordCountsOf(corpus, threshold)[w] >= Occurrences(AllTokens(corpus), d)
  {
    forall w, d | CorpusKey(WordCountsOf(corpus, threshold), w)
                  && Dropped(VocabularyOf(corpus, threshold), AllTokens(corpus), d)
      ensures WordCountsOf(corpus, threshold)[w] >= Occurrences(AllTokens(corpus), d)
    {
      KeptOutranksDroppedWord(corpus, threshold, w, d);
    }
  }

  /** Without a limit (None, 0 or a negative value) every corpus word is kept. */
  lemma NoLimitKeepsEveryWord(corpus: seq<string>, threshold: Option<int>)
    requires !Limited(threshold)
    ensures forall w :: w in AllTokens(corpus) ==> w in VocabularyOf(corpus, threshold)
  {
    var r := Ranked(corpus, threshold);
    forall w | w in AllTokens(corpus) ensures w in IndexMap(r) {
      var j := PositionInSorted(corpus, w);
      assert r[j].word == w;
    }
  }

  /** A corpus without tokens, the empty corpus included, gives {'UNK': 0} and {'UNK': 1}. */
  lemma EmptyCorpus(corpus: seq<string>, threshold: Option<int>)
    requires AllTokens(corpus) == []
    ensures VocabularyOf(corpus, threshold) == map[Unk := 0]
    ensures WordCountsOf(corpus, threshold) == map[Unk := 1]
  {
    assert |CountTable(corpus)| == 0;
    assert Ranked(corpus, threshold) == [Entry(Unk, 1)];
    SingleEntryMaps(Entry(Unk, 1));
  }
}
