/** The counting step of vocabulary (word_embedding/helper.py): every sentence
    is tokenized and each token's occurrences are accumulated into a dict whose
    keys keep the order in which words were first inserted. */
module WordCounts {
  import opened Tokenizer

  /** All tokens of the corpus, sentence after sentence. */
  function AllTokens(corpus: seq<string>): seq<string>
  {
    if corpus == [] then []
    else AllTokens(corpus[..|corpus| - 1]) + Tokenize(corpus[|corpus| - 1])
  }

  /** Number of occurrences of w in t. */
  function Occurrences(t: seq<string>, w: string): nat
  {
    if t == [] then 0
    else Occurrences(t[..|t| - 1], w) + (if t[|t| - 1] == w then 1 else 0)
  }

  /** The distinct words of t, in the order of their first occurrence: the key
      order of a dict filled by inserting the words of t one by one. */
  function Distinct(t: seq<string>): (d: seq<string>)
    ensures forall w :: w in d <==> w in t
    ensures forall i, j :: 0 <= i < j < |d| ==> d[i] != d[j]
  {
    if t == [] then []
    else
      var d' := Distinct(t[..|t| - 1]);
      var x := t[|t| - 1];
      assert forall w :: w in t <==> w in t[..|t| - 1] || w == x;
      if x in d' then d' else d' + [x]
  }

  /** Index of the first occurrence of w in t. */
  function FirstIndex(t: seq<string>, w: string): (k: nat)
    requires w in t
    ensures k < |t| && t[k] == w
    ensures forall i :: 0 <= i < k ==> t[i] != w
  {
    if t[0] == w then 0 else 1 + FirstIndex(t[1..], w)
  }

  /** A dict from words to counts: its keys in insertion order, and the key -> count map. */
  datatype WordDict = WordDict(order: seq<string>, counts: map<string, nat>)

  /** dict.get(w, default). */
  function Get(counts: map<string, nat>, w: string, default: nat): nat
  {
    if w in counts then counts[w] else default
  }

  /** word_counts[w] = word_counts.get(w, 0) + 1: a new key goes last in insertion order. */
  function AddToken(d: WordDict, w: string): WordDict
  {
    WordDict(if w in d.counts then d.order else d.order + [w],
             d.counts[w := Get(d.counts, w, 0) + 1])
  }

  /** The dict after adding the tokens of t one by one to an empty dict. */
  function CountOf(t: seq<string>): WordDict
  {
    if t == [] then WordDict([], map[]) else AddToken(CountOf(t[..|t| - 1]), t[|t| - 1])
  }

  /** The nested counting loop of vocabulary: word_counts[w] = word_counts.get(w, 0) + 1
      for every token of every sentence. The dict's keys are the distinct tokens in
      first-occurrence order, each counted as often as it occurs. */
  method CountWords(corpus: seq<string>) returns (order: seq<string>, counts: map<string, nat>)
    ensures order == Distinct(AllTokens(corpus))
    ensures forall w :: w in counts <==> w in AllTokens(corpus)
    ensures forall w :: w in counts ==> counts[w] == Occurrences(AllTokens(corpus), w)
  {
    order, counts := [], map[];
    var i := 0;
    while i < |corpus|
      invariant i <= |corpus|
      invariant WordDict(order, counts) == CountOf(AllTokens(corpus[..i]))
    {
      AllTokensPrefix(corpus, i);
      order, counts := CountSentence(AllTokens(corpus[..i]), Tokenize(corpus[i]), order, counts);
      i := i + 1;
    }
    assert corpus[..i] == corpus;
    CountOfMeaning(AllTokens(corpus));
  }

  /** The inner loop of the count: the tokens of one sentence are added to the
      dict that holds the count of the tokens before them. */
  method CountSentence(ghost seen: seq<string>, tokens: seq<string>,
                       order0: seq<string>, counts0: map<string, nat>)
    returns (order: seq<string>, counts: map<string, nat>)
    requires WordDict(order0, counts0) == CountOf(seen)
    ensures WordDict(order, counts) == CountOf(seen + tokens)
  {
    order, counts := order0, counts0;
    ghost var t := seen;
    var j := 0;
    while j < |tokens|
      invariant j <= |tokens|
      invariant t == seen + tokens[..j]
      invariant WordDict(order, counts) == CountOf(t)
    {
      var word := tokens[j];
      if word !in counts {
        order := order + [word];
      }
      counts := counts[word := Get(counts, word, 0) + 1];
      assert (t + [word])[..|t|] == t;
      t := t + [word];
      assert tokens[..j + 1] == tokens[..j] + [word];
      j := j + 1;
    }
    assert tokens[..j] == tokens;
  }

  // ---------------------------------------------------------------------------
  // Lemmas

  /** The dict built from t has the distinct words of t as keys, in first-occurrence
      order, and maps each to its number of occurrences. */
  lemma {:induction false} CountOfMeaning(t: seq<string>)
    ensures CountOf(t).order == Distinct(t)
    ensures forall w :: w in CountOf(t).counts <==> w in t
    ensures forall w :: w in CountOf(t).counts ==> CountOf(t).counts[w] == Occurrences(t, w)
  {
    if t != [] {
      var t', x := t[..|t| - 1], t[|t| - 1];
      CountOfMeaning(t');
      OccurrencesPositive(t', x);
      assert forall w :: w in t <==> w in t' || w == x;
    }
  }

  lemma AllTokensPrefix(corpus: seq<string>, i: nat)
    requires i < |corpus|
    ensures AllTokens(corpus[..i + 1]) == AllTokens(corpus[..i]) + Tokenize(corpus[i])
  {
    assert corpus[..i + 1][..i] == corpus[..i];
  }

  /** A word occurs in t exactly when it is counted at least once. */
  lemma {:induction false} OccurrencesPositive(t: seq<string>, w: string)
    ensures Occurrences(t, w) > 0 <==> w in t
  {
    if t != [] {
      OccurrencesPositive(t[..|t| - 1], w);
      assert forall v :: v in t <==> v in t[..|t| - 1] || v == t[|t| - 1];
    }
  }

  lemma {:induction false} FirstIndexAppend(t: seq<string>, x: string, w: string)
    requires w in t + [x]
    ensures w in t ==> FirstIndex(t + [x], w) == FirstIndex(t, w)
    ensures w !in t ==> FirstIndex(t + [x], w) == |t|
  {
    if w in t && t[0] != w {
      assert (t + [x])[1..] == t[1..] + [x];
      FirstIndexAppend(t[1..], x, w);
    }
  }

  /** Dict keys come out in first-occurrence order. */
  lemma {:induction false} DistinctInFirstOccurrenceOrder(t: seq<string>)
    ensures forall i, j :: 0 <= i < j < |Distinct(t)| ==>
              FirstIndex(t, Distinct(t)[i]) < FirstIndex(t, Distinct(t)[j])
  {
    if t != [] {
      var t', x := t[..|t| - 1], t[|t| - 1];
      assert t == t' + [x];
      DistinctInFirstOccurrenceOrder(t');
      var d, d' := Distinct(t), Distinct(t');
      forall i, j | 0 <= i < j < |d|
        ensures FirstIndex(t, d[i]) < FirstIndex(t, d[j])
      {
        FirstIndexAppend(t', x, d[i]);
        FirstIndexAppend(t', x, d[j]);
        if j == |d'| {
          assert d[i] == d'[i] && d[i] in t';
        } else {
          assert d[i] == d'[i] && d[j] == d'[j];
        }
      }
    }
  }

  /** Tokens of the corpus are lowercase letter words, so never the string "UNK". */
  lemma {:induction false} TokensAreLowercaseWords(corpus: seq<string>)
    ensures forall w :: w in AllTokens(corpus) ==> |w| > 0 && AllLetters(w)
  {
    if corpus != [] {
      var c' := corpus[..|corpus| - 1];
      TokensAreLowercaseWords(c');
      TokenizeIsLetterRuns(corpus[|corpus| - 1]);
    }
  }
}
