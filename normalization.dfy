/** The case folding and validation that WordTree applies to every word and
    prefix before it walks the tree: lowercase first, then accept only a
    non-empty run of letters. Both library calls are modelled for the "C"
    locale, where only ASCII letters are alphabetic. */
module Normalization {

  /** std::tolower in the "C" locale: 'A'..'Z' become 'a'..'z', every other
      character is left alone. */
  function ToLower(c: char): char
  {
    if 'A' <= c <= 'Z' then (c as int + 32) as char else c
  }

  /** std::isalpha in the "C" locale. */
  predicate IsAlpha(c: char)
  {
    'a' <= c <= 'z' || 'A' <= c <= 'Z'
  }

  /** The string after std::transform(..., tolower). */
  function Lowered(s: string): string
  {
    seq(|s|, i requires 0 <= i < |s| => ToLower(s[i]))
  }

  /** The words the tree accepts once lowercased: non-empty, letters only. */
  predicate IsLowerWord(s: string)
  {
    |s| > 0 && forall i :: 0 <= i < |s| ==> 'a' <= s[i] <= 'z'
  }

  /** Lowercases a copy of `word` character by character, then checks it the
      way the source does (`word.empty() || !all_of(isalpha)`). The check on
      the lowered copy accepts exactly the lowercase words. */
  method Normalize(word: string) returns (w: string, ok: bool)
    ensures w == Lowered(word)
    ensures ok <==> IsLowerWord(w)
  {
    w := word;
    var i := 0;
    while i < |w|
      invariant 0 <= i <= |w| == |word|
      invariant forall k :: 0 <= k < i ==> w[k] == ToLower(word[k])
      invariant forall k :: i <= k < |w| ==> w[k] == word[k]
    {
      w := w[i := ToLower(w[i])];
      i := i + 1;
    }
    var allAlpha := true;
    i := 0;
    while i < |w|
      invariant 0 <= i <= |w|
      invariant forall k :: 0 <= k < i ==> IsAlpha(w[k])
    {
      if !IsAlpha(w[i]) {
        allAlpha := false;
        break;
      }
      i := i + 1;
    }
    ok := |w| > 0 && allAlpha;
  }

  /** Lowercasing keeps letters letters and non-letters non-letters, so the
      check on the lowered copy accepts exactly the non-empty words made of
      letters, whatever their case. */
  lemma {:induction false} AcceptedExactlyLetters(s: string)
    ensures IsLowerWord(Lowered(s)) <==> |s| > 0 && forall i :: 0 <= i < |s| ==> IsAlpha(s[i])
  {
    var l := Lowered(s);
    forall i | 0 <= i < |s|
      ensures ('a' <= l[i] <= 'z') <==> IsAlpha(s[i])
    {
      assert l[i] == ToLower(s[i]);
    }
  }

  /** A word that is already stored in normal form is its own normal form. */
  lemma LoweredKeepsLowerWords(s: string)
    requires IsLowerWord(s)
    ensures Lowered(s) == s
  {
  }

  /** Normalising twice is normalising once, so an accepted word is accepted
      again under any casing that lowercases to it. */
  lemma LoweredIdempotent(s: string)
    ensures Lowered(Lowered(s)) == Lowered(s)
  {
  }
}
