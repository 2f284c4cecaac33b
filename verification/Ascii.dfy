/** ASCII case mapping and substring search, as used on keys and words. */
module Ascii {
  predicate IsLower(c: char) { 'a' <= c <= 'z' }
  predicate IsUpper(c: char) { 'A' <= c <= 'Z' }
  predicate IsAlnum(c: char) { IsLower(c) || IsUpper(c) || '0' <= c <= '9' }

  function Lower(c: char): char {
    if IsUpper(c) then (c as int + 32) as char else c
  }

  function Upper(c: char): char {
    if IsLower(c) then (c as int - 32) as char else c
  }

  /** strings.ToLower on ASCII text. */
  function ToLower(s: string): (r: string)
    ensures |r| == |s|
  {
    seq(|s|, i requires 0 <= i < |s| => Lower(s[i]))
  }

  /** `needle` stands in `hay` at position `at`. */
  predicate OccursAt(hay: string, needle: string, at: nat) {
    at + |needle| <= |hay| && hay[at..at + |needle|] == needle
  }

  /** strings.Contains. */
  predicate Contains(hay: string, needle: string) {
    exists at: nat :: at <= |hay| && OccursAt(hay, needle, at)
  }

  /** Equality of two texts, up to ASCII case when `fold` is set. */
  predicate SameText(fold: bool, a: string, b: string) {
    if fold then ToLower(a) == ToLower(b) else a == b
  }

  /** The same letter, capital or small. */
  predicate SameLetter(c: char, d: char) {
    || c == d
    || ('a' <= c <= 'z' && d as int + 32 == c as int)
    || ('a' <= d <= 'z' && c as int + 32 == d as int)
  }

  /** `word` stands in `s` at `a`, character for character, or up to case. */
  predicate StandsAt(s: string, a: nat, word: string, anyCase: bool) {
    && a + |word| <= |s|
    && if anyCase then forall k :: 0 <= k < |word| ==> SameLetter(s[a + k], word[k]) else s[a..a + |word|] == word
  }

  lemma LowerIsSameLetter(c: char, d: char)
    ensures Lower(c) == Lower(d) <==> SameLetter(c, d)
  {
  }

  /** Lower-casing both sides compares letters whatever their case. */
  lemma SameTextMeaning(fold: bool, t: string, word: string)
    ensures SameText(fold, t, word)
       <==> |t| == |word| && forall k :: 0 <= k < |word| ==> if fold then SameLetter(t[k], word[k]) else t[k] == word[k]
  {
    forall c, d { LowerIsSameLetter(c, d); }
    assert |ToLower(t)| == |t| && |ToLower(word)| == |word|;
    if fold && SameText(fold, t, word) {
      forall k | 0 <= k < |word|
        ensures SameLetter(t[k], word[k])
      {
        assert ToLower(t)[k] == Lower(t[k]) && ToLower(word)[k] == Lower(word[k]);
      }
    }
  }

  lemma ToLowerSlice(s: string, i: nat, j: nat)
    requires i <= j <= |s|
    ensures ToLower(s[i..j]) == ToLower(s)[i..j]
  {
  }
}
