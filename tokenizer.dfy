/** Model of clean_and_tokenize (word_embedding/helper.py): lowercase the text,
    replace every maximal run of characters outside 'a'..'z' by one space, then
    split on whitespace. Characters are treated as ASCII: only 'A'..'Z' change
    under lowercasing. */
module Tokenizer {

  predicate IsLetter(c: char) { 'a' <= c <= 'z' }

  predicate IsUpper(c: char) { 'A' <= c <= 'Z' }

  /** The characters str.split() with no argument treats as whitespace, restricted to ASCII. */
  predicate IsSpace(c: char) {
    c == ' ' || c == '\t' || c == '\n' || c == '\r' || c == '\U{0B}' || c == '\U{0C}'
    || ('\U{1C}' <= c <= '\U{1F}')
  }

  predicate AllLetters(s: string) { forall i :: 0 <= i < |s| ==> IsLetter(s[i]) }

  /** ASCII lowercasing of one character. */
  function Lower(c: char): (r: char)
    ensures IsUpper(c) ==> IsLetter(r) && r as int - c as int == 32
    ensures !IsUpper(c) ==> r == c
    ensures !IsUpper(r)
  {
    if IsUpper(c) then (c as int + 32) as char else c
  }

  /** str.lower() on ASCII text. */
  function Lowercase(s: string): (r: string)
    ensures |r| == |s|
    ensures forall i :: 0 <= i < |s| ==> r[i] == Lower(s[i])
    ensures forall i :: 0 <= i < |r| ==> !IsUpper(r[i])
  {
    seq(|s|, i requires 0 <= i < |s| => Lower(s[i]))
  }

  /** Length of the longest prefix of s made of letters. */
  function LetterSpan(s: string): (n: nat)
    ensures n <= |s|
    ensures forall i :: 0 <= i < n ==> IsLetter(s[i])
    ensures n < |s| ==> !IsLetter(s[n])
  {
    if s == [] || !IsLetter(s[0]) then 0 else 1 + LetterSpan(s[1..])
  }

  /** Length of the longest prefix of s made of non-letters: what [^a-z]+ matches at the start. */
  function GapSpan(s: string): (n: nat)
    ensures n <= |s|
    ensures forall i :: 0 <= i < n ==> !IsLetter(s[i])
    ensures n < |s| ==> IsLetter(s[n])
  {
    if s == [] || IsLetter(s[0]) then 0 else 1 + GapSpan(s[1..])
  }

  /** Length of the longest prefix of s made of non-whitespace characters. */
  function WordSpan(s: string): (n: nat)
    ensures n <= |s|
    ensures forall i :: 0 <= i < n ==> !IsSpace(s[i])
    ensures n < |s| ==> IsSpace(s[n])
  {
    if s == [] || IsSpace(s[0]) then 0 else 1 + WordSpan(s[1..])
  }

  /** re.sub(r"[^a-z]+", " ", s): scanning left to right, a letter is copied and a
      maximal run of non-letters is replaced by a single space. */
  function Substitute(s: string): string
    decreases |s|
  {
    if s == [] then []
    else if IsLetter(s[0]) then [s[0]] + Substitute(s[1..])
    else " " + Substitute(s[GapSpan(s)..])
  }

  /** str.split() with no argument: the maximal runs of non-whitespace, in order. */
  function Split(s: string): seq<string>
    decreases |s|
  {
    if s == [] then []
    else if IsSpace(s[0]) then Split(s[1..])
    else var n := WordSpan(s); [s[..n]] + Split(s[n..])
  }

  /** clean_and_tokenize(text). */
  function Tokenize(text: string): seq<string>
  {
    Split(Substitute(Lowercase(text)))
  }

  /** Reference definition: the maximal runs of letters of s, left to right. */
  function LetterRuns(s: string): (r: seq<string>)
    ensures forall k :: 0 <= k < |r| ==> |r[k]| > 0 && AllLetters(r[k])
    decreases |s|
  {
    if s == [] then []
    else if !IsLetter(s[0]) then LetterRuns(s[1..])
    else var n := LetterSpan(s); [s[..n]] + LetterRuns(s[n..])
  }

  /** The letters of s, in order, with everything else removed. */
  function OnlyLetters(s: string): string
  {
    if s == [] then [] else (if IsLetter(s[0]) then [s[0]] else []) + OnlyLetters(s[1..])
  }

  function Concat(ss: seq<string>): string
  {
    if ss == [] then [] else ss[0] + Concat(ss[1..])
  }

  // ---------------------------------------------------------------------------
  // Lemmas

  /** Skipping a prefix of non-letters does not change the letter runs. */
  lemma {:induction false} LetterRunsSkip(s: string, k: nat)
    requires k <= |s|
    requires forall i :: 0 <= i < k ==> !IsLetter(s[i])
    ensures LetterRuns(s) == LetterRuns(s[k..])
  {
    if k > 0 {
      LetterRunsSkip(s[1..], k - 1);
      assert s[1..][k - 1..] == s[k..];
    }
  }

  /** A string without letters has no letter runs. */
  lemma NoLettersNoRuns(s: string)
    requires forall i :: 0 <= i < |s| ==> !IsLetter(s[i])
    ensures LetterRuns(s) == []
  {
    LetterRunsSkip(s, |s|);
  }

  /** Substitute copies a leading run of letters unchanged. */
  lemma {:induction false} SubstituteLetterPrefix(s: string)
    ensures Substitute(s) == s[..LetterSpan(s)] + Substitute(s[LetterSpan(s)..])
    decreases |s|
  {
    if s != [] && IsLetter(s[0]) {
      SubstituteLetterPrefix(s[1..]);
      assert s[1..][LetterSpan(s[1..])..] == s[LetterSpan(s)..];
      assert s[..LetterSpan(s)] == [s[0]] + s[1..][..LetterSpan(s[1..])];
    }
  }

  /** After Substitute, a string that does not start with a letter starts with a space. */
  lemma SubstituteStartsWithSpace(s: string)
    requires s != [] && !IsLetter(s[0])
    ensures Substitute(s) != [] && Substitute(s)[0] == ' '
  {
  }

  lemma {:induction false} WordSpanOfWord(w: string, x: string)
    requires forall i :: 0 <= i < |w| ==> !IsSpace(w[i])
    requires x == [] || IsSpace(x[0])
    ensures WordSpan(w + x) == |w|
    decreases |w|
  {
    if w != [] {
      WordSpanOfWord(w[1..], x);
      assert (w + x)[1..] == w[1..] + x;
    }
  }

  /** Splitting a word followed by a separator (or nothing) yields that word first. */
  lemma SplitWord(w: string, x: string)
    requires |w| > 0 && forall i :: 0 <= i < |w| ==> !IsSpace(w[i])
    requires x == [] || IsSpace(x[0])
    ensures Split(w + x) == [w] + Split(x)
  {
    WordSpanOfWord(w, x);
    assert (w + x)[..|w|] == w;
    assert (w + x)[|w|..] == x;
  }

  lemma LetterIsNotSpace(w: string)
    requires AllLetters(w)
    ensures forall i :: 0 <= i < |w| ==> !IsSpace(w[i])
  {
  }

  /** Splitting the substituted text gives exactly the maximal letter runs. */
  lemma {:induction false} SplitSubstitute(s: string)
    ensures Split(Substitute(s)) == LetterRuns(s)
    decreases |s|
  {
    if s == [] {
    } else if !IsLetter(s[0]) {
      var n := GapSpan(s);
      assert (" " + Substitute(s[n..]))[1..] == Substitute(s[n..]);
      SplitSubstitute(s[n..]);
      LetterRunsSkip(s, n);
    } else {
      var n := LetterSpan(s);
      var rest := s[n..];
      SubstituteLetterPrefix(s);
      SplitSubstitute(rest);
      if rest != [] {
        SubstituteStartsWithSpace(rest);
      }
      LetterIsNotSpace(s[..n]);
      SplitWord(s[..n], Substitute(rest));
    }
  }

  /** The tokens of clean_and_tokenize are exactly the maximal runs of letters of
      the lowercased text, in order; each is non-empty and all lowercase letters. */
  lemma TokenizeIsLetterRuns(text: string)
    ensures Tokenize(text) == LetterRuns(Lowercase(text))
    ensures forall k :: 0 <= k < |Tokenize(text)| ==>
              |Tokenize(text)[k]| > 0 && AllLetters(Tokenize(text)[k])
  {
    SplitSubstitute(Lowercase(text));
  }

  /** Text without letters, the empty string included, yields no tokens. */
  lemma NoLettersNoTokens(text: string)
    requires forall i :: 0 <= i < |text| ==> !IsLetter(text[i]) && !IsUpper(text[i])
    ensures Tokenize(text) == []
  {
    TokenizeIsLetterRuns(text);
    NoLettersNoRuns(Lowercase(text));
  }

  lemma {:induction false} OnlyLettersOfPrefix(s: string, n: nat)
    requires n <= |s|
    requires forall i :: 0 <= i < n ==> IsLetter(s[i])
    ensures OnlyLetters(s) == s[..n] + OnlyLetters(s[n..])
  {
    if n > 0 {
      OnlyLettersOfPrefix(s[1..], n - 1);
      assert s[1..][n - 1..] == s[n..];
      assert s[..n] == [s[0]] + s[1..][..n - 1];
    }
  }

  /** Nothing but the separators is lost: the runs joined together are the letters of s. */
  lemma {:induction false} ConcatLetterRuns(s: string)
    ensures Concat(LetterRuns(s)) == OnlyLetters(s)
    decreases |s|
  {
    if s == [] {
    } else if !IsLetter(s[0]) {
      ConcatLetterRuns(s[1..]);
    } else {
      var n := LetterSpan(s);
      ConcatLetterRuns(s[n..]);
      OnlyLettersOfPrefix(s, n);
      assert ([s[..n]] + LetterRuns(s[n..]))[1..] == LetterRuns(s[n..]);
    }
  }

  /** The tokens joined together are the letters of the lowercased text. */
  lemma TokensConcat(text: string)
    ensures Concat(Tokenize(text)) == OnlyLetters(Lowercase(text))
  {
    TokenizeIsLetterRuns(text);
    ConcatLetterRuns(Lowercase(text));
  }
}
