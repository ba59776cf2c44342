// Character classes and case mapping used by the stock-mention scanner.
//
// The scanner's pattern is compiled with IGNORECASE and bracketed by `\b`.
// This module fixes what those mean in the model: a word character is an
// ASCII letter, an ASCII digit or `_`; case folding and upper-casing touch
// only the ASCII letters and leave every other character as it is.

module Text {

  predicate IsAsciiUpper(c: char) { 'A' <= c <= 'Z' }

  predicate IsAsciiLower(c: char) { 'a' <= c <= 'z' }

  predicate IsAsciiLetter(c: char) { IsAsciiUpper(c) || IsAsciiLower(c) }

  /** A character that `\w` matches. */
  predicate IsWordChar(c: char) {
    IsAsciiLetter(c) || ('0' <= c <= '9') || c == '_'
  }

  /** `\b` at position `i` of `t`: exactly one of the characters around `i` is a
      word character (a position outside the text counts as a non-word one). */
  predicate IsBoundary(t: string, i: nat)
    requires i <= |t|
  {
    (i > 0 && IsWordChar(t[i - 1])) != (i < |t| && IsWordChar(t[i]))
  }

  /** The case-insensitive comparison key of one character. */
  function FoldChar(c: char): (r: char)
    ensures IsAsciiUpper(c) ==> IsAsciiLower(r) && r as int == c as int + 32
    ensures !IsAsciiUpper(c) ==> r == c
  {
    if IsAsciiUpper(c) then (c as int + 32) as char else c
  }

  /** Upper-casing of one character, as `str.upper` does on ASCII. */
  function UpperChar(c: char): (r: char)
    ensures IsAsciiLower(c) ==> IsAsciiUpper(r) && r as int + 32 == c as int
    ensures !IsAsciiLower(c) ==> r == c
  {
    if IsAsciiLower(c) then (c as int - 32) as char else c
  }

  /** Two characters that IGNORECASE treats as equal have the same upper case. */
  lemma FoldSameUpper(a: char, b: char)
    requires FoldChar(a) == FoldChar(b)
    ensures UpperChar(a) == UpperChar(b)
  {
  }

  /** Folding never turns a word character into a non-word one or back. */
  lemma FoldKeepsWordChar(c: char)
    ensures IsWordChar(FoldChar(c)) == IsWordChar(c)
  {
  }

  /** `s.upper()` restricted to ASCII. */
  function Upper(s: string): string {
    UpperFrom(s, 0)
  }

  /** The upper case of `s[k..]`. */
  function UpperFrom(s: string, k: nat): string
    requires k <= |s|
    decreases |s| - k
  {
    if k == |s| then [] else [UpperChar(s[k])] + UpperFrom(s, k + 1)
  }

  lemma {:induction false} UpperFromAt(s: string, k: nat)
    requires k <= |s|
    ensures |UpperFrom(s, k)| == |s| - k
    ensures forall i :: 0 <= i < |s| - k ==> UpperFrom(s, k)[i] == UpperChar(s[k + i])
    decreases |s| - k
  {
    if k < |s| {
      UpperFromAt(s, k + 1);
      assert forall i :: 1 <= i < |s| - k ==> UpperFrom(s, k)[i] == UpperFrom(s, k + 1)[i - 1];
    }
  }

  /** Upper-casing keeps the length and works character by character. */
  lemma UpperAt(s: string)
    ensures |Upper(s)| == |s|
    ensures forall i :: 0 <= i < |s| ==> Upper(s)[i] == UpperChar(s[i])
  {
    UpperFromAt(s, 0);
  }

  /** `u[k..]` is the upper case of `s[k..]`, checked character by character
      (the form in which Dafny can evaluate it on literal strings). */
  predicate UpperFromIs(s: string, u: string, k: nat)
    requires |s| == |u|
    decreases |s| - k
  {
    k >= |s| || (UpperChar(s[k]) == u[k] && UpperFromIs(s, u, k + 1))
  }

  lemma {:induction false} UpperFromIsAt(s: string, u: string, k: nat)
    requires |s| == |u| && UpperFromIs(s, u, k)
    ensures forall i :: k <= i < |s| ==> UpperChar(s[i]) == u[i]
    decreases |s| - k
  {
    if k < |s| {
      UpperFromIsAt(s, u, k + 1);
    }
  }

  lemma UpperIs(s: string, u: string)
    requires |s| == |u| && UpperFromIs(s, u, 0)
    ensures Upper(s) == u
  {
    UpperFromIsAt(s, u, 0);
    UpperAt(s);
  }

  /** Equality of two strings under IGNORECASE. */
  predicate EqualIgnoringCase(a: string, b: string) {
    |a| == |b| && FoldsAlikeFrom(a, b, 0)
  }

  /** The characters of `a` and `b` from index `k` on fold alike. */
  predicate FoldsAlikeFrom(a: string, b: string, k: nat)
    requires |a| == |b|
    decreases |a| - k
  {
    k >= |a| || (FoldChar(a[k]) == FoldChar(b[k]) && FoldsAlikeFrom(a, b, k + 1))
  }

  lemma {:induction false} FoldsAlikeFromAt(a: string, b: string, k: nat)
    requires |a| == |b|
    ensures FoldsAlikeFrom(a, b, k) <==> forall i :: k <= i < |a| ==> FoldChar(a[i]) == FoldChar(b[i])
    decreases |a| - k
  {
    if k < |a| {
      FoldsAlikeFromAt(a, b, k + 1);
    }
  }

  /** The comparison is the character-wise one. */
  lemma EqualIgnoringCaseAt(a: string, b: string)
    ensures EqualIgnoringCase(a, b) <==> |a| == |b| && forall i :: 0 <= i < |a| ==> FoldChar(a[i]) == FoldChar(b[i])
  {
    if |a| == |b| {
      FoldsAlikeFromAt(a, b, 0);
    }
  }

  /** Strings equal under IGNORECASE have the same upper case: every spelling of
      a lexicon entry is reported as the same value. */
  lemma SameUpperWhenEqualIgnoringCase(a: string, b: string)
    requires EqualIgnoringCase(a, b)
    ensures Upper(a) == Upper(b)
  {
    EqualIgnoringCaseAt(a, b);
    UpperAt(a);
    UpperAt(b);
    forall i | 0 <= i < |a| ensures Upper(a)[i] == Upper(b)[i] {
      FoldSameUpper(a[i], b[i]);
    }
  }

  /** `upper()` is idempotent: a reported value is already upper case. */
  lemma UpperIdempotent(s: string)
    ensures Upper(Upper(s)) == Upper(s)
  {
    UpperAt(s);
    UpperAt(Upper(s));
  }
}
