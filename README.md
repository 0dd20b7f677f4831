# word_embedding helper: tokenizer and vocabulary builder, in Dafny

This project models the text-preprocessing core of the `word_embedding` package, the file
`word_embedding/helper.py`. It models two operations:

- `clean_and_tokenize(text)` lowercases a document. It replaces every maximal run of
  characters other than `a`–`z` by one space. It then splits the result on whitespace.
- `vocabulary(corpus, voc_threshold=None)` does the following:
  1. It tokenizes every sentence and counts each token in a dict.
  2. It sorts the `(word, count)` items by descending count, using Python's stable `sorted`.
  3. It keeps only the first `voc_threshold` items when that value is a positive integer.
  4. It appends `('UNK', 1)`.
  5. It returns two dicts: word → index in that list, and word → count.

The modules follow the steps of the source:

- `Tokenizer` (`tokenizer.dfy`) holds the tokenizer.
  - `Lowercase` models `str.lower`.
  - `Substitute` models `re.sub(r"[^a-z]+", " ", ·)`.
  - `Split` models `str.split()`.
  - `LetterRuns` is an independent reference definition: the maximal runs of letters.
- `WordCounts` (`counting.dfy`) holds the counting loop. It is written as imperative Dafny: two
  nested `while` loops update the dict's key order (`seq`) and its key → count `map`. It is
  proved against the function `CountOf`, which describes the dict after adding a token sequence.
- `Ranking` (`ranking.dfy`) holds the sort and the truncation.
  - `SortByCount` is a stable insertion sort by descending count.
  - `Truncate` is the slice `[:voc_threshold]`, taken only under a limit.
- `Vocabulary` (`vocabulary.dfy`) holds `BuildVocabulary`, the whole of `vocabulary`.
  - `Ranked` describes the final list `sorted_word_counts`.
  - `IndexMap` and `CountMap` describe the two dict comprehensions.
  - The lemmas state what the two returned dicts hold.

Two docstrings disagree with the code; the model follows the code:

- The docstring calls the corpus a "list of list of strings". The code calls `.lower()` on each
  sentence, so a sentence is a string.
- The docstring says that `0 (default)` means no limit. The default is actually `None`. The test
  `voc_threshold and voc_threshold > 0` treats `None`, `0` and negative values alike: none of
  them truncates.

## Model

| member | source | states |
|---|---|---|
| Tokenizer.Lower | word_embedding/helper.py:23 | ASCII lowercasing of one character: an upper-case letter becomes the letter 32 code points above; every other character is unchanged; the result is never upper case |
| Tokenizer.Lowercase | word_embedding/helper.py:23 | `text.lower()` keeps the length, lowercases each character in place, and leaves no upper-case letter |
| Tokenizer.LetterSpan | word_embedding/helper.py:25 | the longest prefix made of letters: all letters, and the next character (if any) is not a letter |
| Tokenizer.GapSpan | word_embedding/helper.py:25 | what `[^a-z]+` matches at the start: the longest prefix of non-letters, followed by a letter or the end |
| Tokenizer.WordSpan | word_embedding/helper.py:27 | the longest prefix without whitespace, followed by whitespace or the end |
| Tokenizer.LetterRuns | word_embedding/helper.py:10-28 | reference definition of the tokens: every run is non-empty and made of letters `a`–`z` only |
| Tokenizer.LetterRunsSkip | word_embedding/helper.py:25 | a leading stretch of non-letters contributes no token |
| Tokenizer.NoLettersNoRuns | word_embedding/helper.py:25-27 | a string without letters has no letter runs |
| Tokenizer.SubstituteLetterPrefix | word_embedding/helper.py:25 | the substitution copies a leading run of letters unchanged |
| Tokenizer.SubstituteStartsWithSpace | word_embedding/helper.py:25 | a string that starts with a non-letter starts with a space after the substitution |
| Tokenizer.WordSpanOfWord | word_embedding/helper.py:27 | a space-free word followed by whitespace or the end is exactly the first non-whitespace run |
| Tokenizer.SplitWord | word_embedding/helper.py:27 | `split()` of such a word followed by the rest yields the word, then the split of the rest |
| Tokenizer.LetterIsNotSpace | word_embedding/helper.py:25-27 | letters are never whitespace, so splitting never cuts inside a letter run |
| Tokenizer.SplitSubstitute | word_embedding/helper.py:25-27 | substituting and then splitting gives exactly the maximal letter runs, in order |
| Tokenizer.TokenizeIsLetterRuns | word_embedding/helper.py:10-28 | the tokens equal the maximal letter runs of the lowercased text, in order; each token is non-empty and all `a`–`z` |
| Tokenizer.NoLettersNoTokens | word_embedding/helper.py:23-27 | text with no letter of either case, the empty text included, yields no tokens |
| Tokenizer.OnlyLettersOfPrefix | word_embedding/helper.py:25 | the letters of a string that starts with a letter run are that run, then the letters of the rest |
| Tokenizer.ConcatLetterRuns | word_embedding/helper.py:25-27 | only the separators are lost: the runs joined together are exactly the letters of the string |
| Tokenizer.TokensConcat | word_embedding/helper.py:10-28 | the tokens joined together are exactly the letters of the lowercased text |
| WordCounts.Distinct | word_embedding/helper.py:46-48 | the dict's key order: a word is a key iff it occurs, and no key is repeated |
| WordCounts.FirstIndex | word_embedding/helper.py:46-48 | the position of a word's first occurrence: it holds the word, and no earlier position does |
| WordCounts.CountWords | word_embedding/helper.py:43-48 | the counting loop: the keys, in insertion order, are the distinct tokens in first-occurrence order; a word is a key iff it is a token; each count equals the word's number of occurrences |
| WordCounts.CountSentence | word_embedding/helper.py:47-48 | the inner loop over one sentence: after it, the dict is the dict of all tokens seen so far followed by this sentence's tokens |
| WordCounts.CountOfMeaning | word_embedding/helper.py:46-48 | adding tokens one by one with `get(word, 0) + 1` gives the distinct words in first-occurrence order, with each word's number of occurrences as its count |
| WordCounts.AllTokensPrefix | word_embedding/helper.py:46-47 | one more sentence adds its tokens after those of the earlier sentences |
| WordCounts.OccurrencesPositive | word_embedding/helper.py:48 | a word's count is positive iff the word occurs |
| WordCounts.FirstIndexAppend | word_embedding/helper.py:48 | appending a token does not move an existing word's first occurrence; a new word first occurs at the end |
| WordCounts.DistinctInFirstOccurrenceOrder | word_embedding/helper.py:46-48 | dict keys come out ordered by strictly increasing first occurrence |
| WordCounts.TokensAreLowercaseWords | word_embedding/helper.py:46-47 | every corpus token is non-empty and made of `a`–`z` only |
| Ranking.InsertByCount | word_embedding/helper.py:51 | one insertion step of the sort: the result is a permutation of the list plus the new item |
| Ranking.SortByCount | word_embedding/helper.py:51 | `sorted(..., reverse=True)` by count: a permutation of the items, with counts non-increasing |
| Ranking.Truncate | word_embedding/helper.py:54-55 | the slice `[:voc_threshold]` under a positive threshold (all items when the list is shorter), the whole list otherwise; the result is a prefix |
| Ranking.InsertKeepsNonIncreasing | word_embedding/helper.py:51 | inserting into a list in descending count order keeps it in that order |
| Ranking.InsertKeepsDistinctWords | word_embedding/helper.py:51 | inserting a new word keeps words distinct |
| Ranking.SortKeepsDistinctWords | word_embedding/helper.py:51 | sorting distinct words keeps them distinct |
| Ranking.ConsRankOrdered | word_embedding/helper.py:51 | an item that outranks every item of a ranked list can be placed in front of it |
| Ranking.InsertRankOrdered | word_embedding/helper.py:51 | inserting an item of lower rank than all others keeps the list ordered by (count descending, rank ascending) |
| Ranking.SortIsStable | word_embedding/helper.py:51 | stability: when the input is in increasing rank order, the sorted list breaks count ties by that order |
| Vocabulary.Items | word_embedding/helper.py:51 | `word_counts.items()`: one `(word, count)` item per key, in key order |
| Vocabulary.IndexMap | word_embedding/helper.py:59 | `{word: index ...}`: every listed word is a key, and each key maps to a position that holds it |
| Vocabulary.CountMap | word_embedding/helper.py:60 | `{word: count ...}`: the same keys as the index dict, each with the count of the entry that index names |
| Vocabulary.BuildVocabulary | word_embedding/helper.py:31-63 | `vocabulary(corpus, voc_threshold)`: both dicts are the projections of the final list; they have the same keys; `UNK` is present with the last index and count 1; every other word's count is its number of occurrences, and is positive |
| Vocabulary.MapsAt | word_embedding/helper.py:59-60 | with distinct words, each entry is indexed by its position and keeps its count |
| Vocabulary.MapSizeOfDistinct | word_embedding/helper.py:59-60 | with distinct words, both dicts have exactly one key per entry |
| Vocabulary.SameKeys | word_embedding/helper.py:59-60 | both comprehensions have the same keys |
| Vocabulary.SingleEntryMaps | word_embedding/helper.py:59-60 | a one-entry list gives one-key dicts |
| Vocabulary.IndexMapDense | word_embedding/helper.py:59 | with distinct words, the indices are exactly 0..n-1 in list order, each used once |
| Vocabulary.PositionOf | word_embedding/helper.py:59-60 | with distinct words, a key sits at the position its index names, with its count |
| Vocabulary.UnkIsNotAToken | word_embedding/helper.py:56 | `'UNK'` never collides with a corpus token, since tokens are lowercase |
| Vocabulary.CountTableInFirstSeenOrder | word_embedding/helper.py:46-51 | the items reach `sorted` in first-occurrence order |
| Vocabulary.SortedDistinct | word_embedding/helper.py:51 | the sorted items have distinct words, one per distinct token |
| Vocabulary.SortedEntry | word_embedding/helper.py:46-51 | every sorted item is a corpus word with its number of occurrences |
| Vocabulary.PositionInSorted | word_embedding/helper.py:46-51 | every corpus word appears in the sorted items with its number of occurrences |
| Vocabulary.SortedRankOrdered | word_embedding/helper.py:51 | the sorted items are ordered by descending count, then by first occurrence |
| Vocabulary.RankedLayout | word_embedding/helper.py:54-56 | the final list is a prefix of the sorted items followed by `('UNK', 1)` |
| Vocabulary.RankedDistinct | word_embedding/helper.py:54-56 | no word appears twice in the final list, `UNK` included |
| Vocabulary.PositionInRanked | word_embedding/helper.py:54-60 | a key of the vocabulary sits at its index with its count; a corpus word sits in the kept prefix of the sorted items |
| Vocabulary.IndicesAreDense | word_embedding/helper.py:59-60 | indices are dense, 0..n-1, one per entry of the final list, and injective; both dicts have the same keys |
| Vocabulary.UnkIsLast | word_embedding/helper.py:56-60 | `UNK` is always a key, with index n-1 and count 1, whether or not anything was cut |
| Vocabulary.CountIsOccurrences | word_embedding/helper.py:46-60 | a kept word's count is its number of occurrences in the tokenized corpus, and is positive |
| Vocabulary.CountsAreOccurrences | word_embedding/helper.py:46-60 | the same for every key except `UNK` |
| Vocabulary.PairRanked | word_embedding/helper.py:51-59 | of two corpus words in the vocabulary, the one with the smaller index has the larger count, or an equal count and an earlier first occurrence |
| Vocabulary.RankedByCountThenFirstOccurrence | word_embedding/helper.py:51-59 | along index order, counts never increase and ties keep first-occurrence order |
| Vocabulary.VocabularySize | word_embedding/helper.py:54-60 | both dicts have min(voc_threshold, #distinct words) + 1 keys under a positive threshold, and #distinct + 1 otherwise |
| Vocabulary.KeptOutranksDroppedWord | word_embedding/helper.py:51-55 | a kept word counts at least as much as a corpus word cut by the threshold |
| Vocabulary.KeptOutrankDropped | word_embedding/helper.py:51-55 | the same for every kept and every dropped word |
| Vocabulary.NoLimitKeepsEveryWord | word_embedding/helper.py:54 | with `None`, 0 or a negative threshold, every corpus word is in the vocabulary |
| Vocabulary.EmptyCorpus | word_embedding/helper.py:43-63 | a corpus without tokens, the empty corpus included, gives `{'UNK': 0}` and `{'UNK': 1}` |

## Left out

- `word_embedding/vector_comparison.py` is not part of this model. It does floating-point vector similarity through numpy and scikit-learn, and it prints.
- `setup.py` is not part of this model. It is packaging metadata.
- The co-occurrence matrix and embedding training are not part of this model. No source for them is shown.
- The unused imports (`sys`, `numpy`, `os`) are not modelled.
- Tokenizer.Lowercase: models `str.lower()` on ASCII only. Python also lowercases non-ASCII letters, and some of them become ASCII letters (KELVIN SIGN becomes `k`). Here every non-ASCII character is a non-letter and becomes a separator.
- Tokenizer.Split: whitespace is the ASCII set that `str.split()` uses (space, `\t\n\v\f\r` and `\x1c`–`\x1f`). Non-ASCII whitespace does not matter, because `Split` only ever sees the output of `Substitute`, which holds letters and spaces only.
- Ranking.SortByCount: Python's `sorted` (Timsort) is a library call. It is modelled as a stable insertion sort with the same result: the same multiset, sorted by descending count, with ties in input order.
- Vocabulary.BuildVocabulary: `voc_threshold` is `Option<int>`. Python truthiness of other types, such as a float or a string threshold, is not modelled.
- The doctest-style expectations of `test/test_helper.py:9-15` are not proved on the concrete corpus. Evaluating the tokenizer on literal sentences is too costly for the verifier. The properties those expectations check are proved for all inputs: count order with ties by first occurrence, the threshold cut, `UNK` last with count 1, and counts equal to occurrences.
