// The scan for a lexicon whose entries are plain words (letters, digits and
// `_` only), as the fixed ten-entry lexicon is. For such a lexicon `\b` on both
// sides forces a match to cover a whole word of the text: the scan reports a
// word of the text exactly when it equals an entry ignoring case, and nothing
// that starts inside a word or at a non-word character.

module WholeWords {
  import opened Text
  import opened Scanner

  predicate IsWord(w: string) {
    |w| > 0 && forall i :: 0 <= i < |w| ==> IsWordChar(w[i])
  }

  predicate WordEntries(entries: seq<string>) {
    forall i :: 0 <= i < |entries| ==> IsWord(entries[i])
  }

  /** `t[s..e]` is a whole word of `t`: word characters with no word character
      on either side. */
  predicate WordAt(t: string, s: nat, e: nat) {
    s < e <= |t| && (s == 0 || !IsWordChar(t[s - 1])) && (e == |t| || !IsWordChar(t[e]))
    && forall k :: s <= k < e ==> IsWordChar(t[k])
  }

  /** `w` equals, ignoring case, one of `entries`. */
  predicate IsEntry(w: string, entries: seq<string>) {
    IsEntryFrom(w, entries, 0)
  }

  /** `w` equals, ignoring case, one of `entries` from index `i` on. */
  predicate IsEntryFrom(w: string, entries: seq<string>, i: nat)
    decreases |entries| - i
  {
    i < |entries|
    && ((|w| == |entries[i]| && FoldsAlikeFrom(w, entries[i], 0)) || IsEntryFrom(w, entries, i + 1))
  }

  lemma {:induction false} IsEntryFromExists(w: string, entries: seq<string>, i: nat)
    ensures IsEntryFrom(w, entries, i) <==> exists j :: i <= j < |entries| && EqualIgnoringCase(w, entries[j])
    decreases |entries| - i
  {
    if i < |entries| {
      IsEntryFromExists(w, entries, i + 1);
    }
  }

  lemma IsEntryExists(w: string, entries: seq<string>)
    ensures IsEntry(w, entries) <==> exists i :: 0 <= i < |entries| && EqualIgnoringCase(w, entries[i])
  {
    IsEntryFromExists(w, entries, 0);
  }

  /** An entry of a concatenated lexicon is an entry of one of its parts. */
  lemma IsEntryAppend(w: string, a: seq<string>, b: seq<string>)
    ensures IsEntry(w, a + b) <==> IsEntry(w, a) || IsEntry(w, b)
  {
    IsEntryExists(w, a + b);
    IsEntryExists(w, a);
    IsEntryExists(w, b);
    if IsEntry(w, a) {
      var j :| 0 <= j < |a| && EqualIgnoringCase(w, a[j]);
      assert (a + b)[j] == a[j];
    }
    if IsEntry(w, b) {
      var j :| 0 <= j < |b| && EqualIgnoringCase(w, b[j]);
      assert (a + b)[|a| + j] == b[j];
    }
    if IsEntry(w, a + b) {
      var j :| 0 <= j < |a + b| && EqualIgnoringCase(w, (a + b)[j]);
      if j >= |a| {
        assert (a + b)[j] == b[j - |a|];
      }
    }
  }

  /** At the start of a whole word, a word entry fits exactly when it is that
      word, ignoring case. */
  lemma FitsWholeWord(t: string, s: nat, e: nat, w: string)
    requires WordAt(t, s, e) && IsWord(w)
    ensures FitsAt(t, s, w) <==> EqualIgnoringCase(t[s..e], w)
  {
    if FitsAt(t, s, w) {
      var n := |w|;
      EqualIgnoringCaseAt(t[s..s + n], w);
      forall k | s <= k < s + n ensures IsWordChar(t[k]) {
        assert FoldChar(t[s..s + n][k - s]) == FoldChar(w[k - s]);
        FoldKeepsWordChar(t[k]);
        FoldKeepsWordChar(w[k - s]);
      }
      assert s + n == e;
    }
    if EqualIgnoringCase(t[s..e], w) {
      EqualIgnoringCaseAt(t[s..e], w);
      assert IsWordChar(t[e - 1]);
      assert IsBoundary(t, e);
    }
  }

  /** No word entry fits at a non-word character. */
  lemma NoFitAtNonWord(t: string, q: nat, w: string)
    requires q < |t| && !IsWordChar(t[q]) && IsWord(w)
    ensures !FitsAt(t, q, w)
  {
    if FitsAt(t, q, w) {
      EqualIgnoringCaseAt(t[q..q + |w|], w);
      assert FoldChar(t[q..q + |w|][0]) == FoldChar(w[0]);
      FoldKeepsWordChar(t[q]);
      FoldKeepsWordChar(w[0]);
    }
  }

  lemma NoFirstFitAtNonWord(t: string, q: nat, entries: seq<string>, i: nat)
    requires WordEntries(entries) && q < |t| && !IsWordChar(t[q]) && i <= |entries|
    ensures FirstFit(t, q, entries, i).None?
  {
    var r := FirstFit(t, q, entries, i);
    FirstFitIsFirst(t, q, entries, i);
    if r.Some? {
      NoFitAtNonWord(t, q, entries[r.value]);
    }
  }

  /** A non-word character is skipped. */
  lemma SkipNonWord(t: string, entries: seq<string>, p: nat)
    requires WordEntries(entries) && p < |t| && !IsWordChar(t[p])
    ensures NonEmptyEntries(entries)
    ensures Spans(t, entries, p) == Spans(t, entries, p + 1)
  {
    NoFirstFitAtNonWord(t, p, entries, 0);
  }

  /** The positions inside a word, after its first character, are skipped. */
  lemma {:induction false} SkipInsideWord(t: string, entries: seq<string>, p: nat, e: nat)
    requires WordEntries(entries) && 0 < p <= e <= |t|
    requires forall k :: p - 1 <= k < e ==> IsWordChar(t[k])
    ensures NonEmptyEntries(entries)
    ensures Spans(t, entries, p) == Spans(t, entries, e)
    decreases e - p
  {
    if p < e {
      assert !IsBoundary(t, p);
      SkipInsideWord(t, entries, p + 1, e);
    }
  }

  /** The first entry that fits at the start of a whole word is an entry equal to
      that word, and there is one exactly when the word is an entry. */
  lemma FirstFitAtWord(t: string, s: nat, e: nat, entries: seq<string>)
    requires WordEntries(entries) && WordAt(t, s, e)
    ensures FirstFit(t, s, entries, 0).Some? <==> IsEntry(t[s..e], entries)
    ensures FirstFit(t, s, entries, 0).Some? ==> s + |entries[FirstFit(t, s, entries, 0).value]| == e
  {
    IsEntryExists(t[s..e], entries);
    var r := FirstFit(t, s, entries, 0);
    FirstFitIsFirst(t, s, entries, 0);
    if r.Some? {
      FitsWholeWord(t, s, e, entries[r.value]);
      EqualIgnoringCaseAt(t[s..e], entries[r.value]);
    }
    if IsEntry(t[s..e], entries) {
      var i :| 0 <= i < |entries| && EqualIgnoringCase(t[s..e], entries[i]);
      FitsWholeWord(t, s, e, entries[i]);
    }
  }

  /** One whole word: it is reported when it is an entry, and the scan goes on
      after it. */
  lemma ScanWord(t: string, entries: seq<string>, s: nat, e: nat)
    requires WordEntries(entries) && WordAt(t, s, e)
    ensures NonEmptyEntries(entries)
    ensures Spans(t, entries, s)
            == (if IsEntry(t[s..e], entries) then [Span(s, e)] else []) + Spans(t, entries, e)
  {
    FirstFitAtWord(t, s, e, entries);
    assert IsBoundary(t, s);
    if !IsEntry(t[s..e], entries) {
      SkipInsideWord(t, entries, s + 1, e);
    }
  }

  /** Non-word characters only. */
  predicate IsGap(g: string) {
    forall i :: 0 <= i < |g| ==> !IsWordChar(g[i])
  }

  /** A stretch of non-word characters is skipped. */
  lemma {:induction false} SkipGap(t: string, entries: seq<string>, p: nat, n: nat)
    requires WordEntries(entries) && p + n <= |t| && IsGap(t[p..p + n])
    ensures NonEmptyEntries(entries)
    ensures Spans(t, entries, p) == Spans(t, entries, p + n)
    decreases n
  {
    if n > 0 {
      assert t[p..p + n][0] == t[p];
      SkipNonWord(t, entries, p);
      assert t[p + 1..p + n] == t[p..p + n][1..];
      SkipGap(t, entries, p + 1, n - 1);
    }
  }

  /** A text cut into words, each followed by the non-word characters after
      it: `Word(w, g, rest)` spells `w`, then `g`, then `rest`. */
  datatype Phrase = End | Word(word: string, gap: string, rest: Phrase)

  /** Every word is a word and every gap a gap, and only the last gap may be empty. */
  predicate Separated(ph: Phrase) {
    ph.End? || (IsWord(ph.word) && IsGap(ph.gap) && (ph.rest.Word? ==> ph.gap != []) && Separated(ph.rest))
  }

  /** The text a phrase spells. */
  function Render(ph: Phrase): string {
    if ph.End? then [] else ph.word + ph.gap + Render(ph.rest)
  }

  /** The words of a phrase that are entries, as written in the text. */
  function EntryWords(ph: Phrase, entries: seq<string>): seq<string> {
    if ph.End? then []
    else (if IsEntry(ph.word, entries) then [ph.word] else []) + EntryWords(ph.rest, entries)
  }

  lemma FirstWordSplit(t: string, p: nat, ph: Phrase)
    requires ph.Word? && p <= |t| && t[p..] == Render(ph)
    ensures p + |ph.word| + |ph.gap| <= |t|
    ensures t[p..p + |ph.word|] == ph.word
    ensures t[p + |ph.word|..p + |ph.word| + |ph.gap|] == ph.gap
    ensures t[p + |ph.word| + |ph.gap|..] == Render(ph.rest)
  {
    var w, g := ph.word, ph.gap;
    assert t[p..] == w + g + Render(ph.rest);
    assert t[p..p + |w|] == t[p..][..|w|];
    assert t[p + |w|..p + |w| + |g|] == t[p..][|w|..|w| + |g|];
    assert t[p + |w| + |g|..] == t[p..][|w| + |g|..];
  }

  /** `t` from position `p` on is spelt by `ph`, and `p` is at the start of the
      text, at its end, or after a non-word character. */
  predicate Spells(t: string, p: nat, ph: Phrase) {
    Separated(ph) && p <= |t| && t[p..] == Render(ph)
    && (p < |t| && p > 0 ==> !IsWordChar(t[p - 1]))
  }

  /** Where the first word lies in the text: a whole word, then a gap, then
      the rest of the phrase. */
  lemma FirstWordLayout(t: string, p: nat, ph: Phrase)
    requires Spells(t, p, ph) && ph.Word?
    ensures var e := p + |ph.word|;
            var next := e + |ph.gap|;
            next <= |t| && WordAt(t, p, e) && t[p..e] == ph.word && IsGap(t[e..next])
            && Spells(t, next, ph.rest)
  {
    var w, g := ph.word, ph.gap;
    FirstWordSplit(t, p, ph);
    var e := p + |w|;
    var next := e + |g|;
    assert t[p..e][0] == t[p];
    if g != [] {
      assert t[e..next][0] == t[e];
    }
    forall k | p <= k < e ensures IsWordChar(t[k]) {
      assert t[p..e][k - p] == t[k];
    }
    if next < |t| && g != [] {
      assert t[e..next][|g| - 1] == t[next - 1];
    }
  }

  /** A whole word and the gap after it: the word is reported when it is an
      entry, and the gap is skipped. */
  lemma ScanWordGap(t: string, entries: seq<string>, s: nat, e: nat, n: nat)
    requires WordEntries(entries) && WordAt(t, s, e) && e + n <= |t| && IsGap(t[e..e + n])
    ensures NonEmptyEntries(entries)
    ensures IsEntry(t[s..e], entries) ==> Spans(t, entries, s) == [Span(s, e)] + Spans(t, entries, e + n)
    ensures !IsEntry(t[s..e], entries) ==> Spans(t, entries, s) == Spans(t, entries, e + n)
  {
    ScanWord(t, entries, s, e);
    SkipGap(t, entries, e, n);
  }

  lemma MatchedTextsCons(t: string, s: Span, rest: seq<Span>)
    requires s.start <= s.end <= |t|
    ensures MatchedTexts(t, [s] + rest) == [t[s.start..s.end]] + MatchedTexts(t, rest)
  {
    assert ([s] + rest)[1..] == rest;
  }

  /** `ScanWordGap` on the matched texts, for the word `w` at `s`. */
  lemma FoundWordGap(t: string, entries: seq<string>, s: nat, w: string, n: nat)
    requires WordEntries(entries) && WordAt(t, s, s + |w|) && t[s..s + |w|] == w
    requires s + |w| + n <= |t| && IsGap(t[s + |w|..s + |w| + n])
    ensures NonEmptyEntries(entries)
    ensures IsEntry(w, entries) ==> FoundFrom(t, entries, s) == [w] + FoundFrom(t, entries, s + |w| + n)
    ensures !IsEntry(w, entries) ==> FoundFrom(t, entries, s) == FoundFrom(t, entries, s + |w| + n)
  {
    var e := s + |w|;
    ScanWordGap(t, entries, s, e, n);
    if IsEntry(w, entries) {
      MatchedTextsCons(t, Span(s, e), Spans(t, entries, e + n));
    }
  }

  /** The scan of a text made of separated words, from the start of a word on,
      finds exactly the words that are entries, in order. */
  lemma {:induction false} ScanPhrase(t: string, entries: seq<string>, p: nat, ph: Phrase)
    requires WordEntries(entries) && Spells(t, p, ph)
    ensures NonEmptyEntries(entries)
    ensures FoundFrom(t, entries, p) == EntryWords(ph, entries)
    decreases ph
  {
    if ph.End? {
      ScanEnd(t, entries, p);
    } else {
      var next := p + |ph.word| + |ph.gap|;
      RestSpells(t, p, ph);
      ScanPhrase(t, entries, next, ph.rest);
      ScanFirstWord(t, entries, p, ph);
    }
  }

  lemma RestSpells(t: string, p: nat, ph: Phrase)
    requires Spells(t, p, ph) && ph.Word?
    ensures p + |ph.word| + |ph.gap| <= |t| && Spells(t, p + |ph.word| + |ph.gap|, ph.rest)
  {
    FirstWordLayout(t, p, ph);
  }

  /** The end of the phrase is the end of the text: nothing more is found. */
  lemma ScanEnd(t: string, entries: seq<string>, p: nat)
    requires WordEntries(entries) && Spells(t, p, End)
    ensures NonEmptyEntries(entries)
    ensures FoundFrom(t, entries, p) == EntryWords(End, entries)
  {
    assert p == |t|;
    assert Spans(t, entries, p) == [];
  }

  /** One step of `ScanPhrase`: the first word, then the rest of the phrase. */
  lemma ScanFirstWord(t: string, entries: seq<string>, p: nat, ph: Phrase)
    requires WordEntries(entries) && Spells(t, p, ph) && ph.Word?
    requires p + |ph.word| + |ph.gap| <= |t|
    requires FoundFrom(t, entries, p + |ph.word| + |ph.gap|) == EntryWords(ph.rest, entries)
    ensures FoundFrom(t, entries, p) == EntryWords(ph, entries)
  {
    var w, g := ph.word, ph.gap;
    FirstWordLayout(t, p, ph);
    FoundWordGap(t, entries, p, w, |g|);
    if IsEntry(w, entries) {
      assert EntryWords(ph, entries) == [w] + EntryWords(ph.rest, entries);
    } else {
      assert EntryWords(ph, entries) == [] + EntryWords(ph.rest, entries);
    }
  }

  /** `findall` on a text made of separated words, after any leading non-word
      characters, returns the words that equal an entry ignoring case, as
      written, in text order. */
  lemma FindAllOfPhrase(lead: string, ph: Phrase, entries: seq<string>)
    requires WordEntries(entries) && IsGap(lead) && Separated(ph)
    ensures NonEmptyEntries(entries)
    ensures FindAllSpec(lead + Render(ph), entries) == EntryWords(ph, entries)
  {
    var t := lead + Render(ph);
    var n := |lead|;
    assert t[0..n] == lead;
    assert t[n..] == Render(ph);
    if 0 < n < |t| {
      assert t[n - 1] == lead[n - 1];
    }
    SkipGap(t, entries, 0, n);
    ScanPhrase(t, entries, n, ph);
  }
}
