// The scan that `pattern.findall(text)` performs with the pattern
//   \b( a0 | a1 | ... | an )\b      (IGNORECASE)
// whose alternatives a0..an are literal strings (see module Pattern).
//
// The search starts at position 0. At a position p the engine first checks
// `\b` at p; it then tries the alternatives in order, and for each one that
// equals the text at p (ignoring case) it checks `\b` after it, backtracking
// into the next alternative when that check fails. The first alternative that
// passes both checks is the match; the scan records it and resumes at its end,
// so matches never overlap. When no alternative passes, the scan moves on to
// p + 1. Every alternative is non-empty, so every match makes progress.

module Scanner {
  import opened Results
  import opened Text

  /** A match: the text positions [start, end). */
  datatype Span = Span(start: nat, end: nat)

  predicate NonEmptyEntries(alternatives: seq<string>) {
    forall i :: 0 <= i < |alternatives| ==> |alternatives[i]| > 0
  }

  /** Alternative `w` matches the text at `p`, including the closing `\b`. */
  predicate FitsAt(t: string, p: nat, w: string)
    requires p <= |t|
  {
    p + |w| <= |t| && EqualIgnoringCase(t[p..p + |w|], w) && IsBoundary(t, p + |w|)
  }

  /** The first alternative, from index `i` on, that fits at `p`. */
  function FirstFit(t: string, p: nat, alternatives: seq<string>, i: nat): (r: Option<nat>)
    requires p <= |t| && i <= |alternatives|
    ensures r.Some? ==> i <= r.value < |alternatives| && p + |alternatives[r.value]| <= |t|
    decreases |alternatives| - i
  {
    if i == |alternatives| then None
    else if FitsAt(t, p, alternatives[i]) then Some(i)
    else FirstFit(t, p, alternatives, i + 1)
  }

  /** The alternative found fits and none before it does; when none is found,
      no alternative from `i` on fits. */
  lemma {:induction false} FirstFitIsFirst(t: string, p: nat, alternatives: seq<string>, i: nat)
    requires p <= |t| && i <= |alternatives|
    ensures var r := FirstFit(t, p, alternatives, i);
            (r.Some? ==> FitsAt(t, p, alternatives[r.value])
                         && forall j :: i <= j < r.value ==> !FitsAt(t, p, alternatives[j]))
            && (r.None? ==> forall j :: i <= j < |alternatives| ==> !FitsAt(t, p, alternatives[j]))
    decreases |alternatives| - i
  {
    if i < |alternatives| && !FitsAt(t, p, alternatives[i]) {
      FirstFitIsFirst(t, p, alternatives, i + 1);
    }
  }

  /** The index of the alternative the regular expression matches at `p`, if any:
      `\b` must hold at `p`, and then the first alternative that fits wins. */
  function MatchAt(t: string, p: nat, alternatives: seq<string>): Option<nat>
    requires p <= |t|
  {
    if IsBoundary(t, p) then FirstFit(t, p, alternatives, 0) else None
  }

  /** The span of the match at `p`: the length of the alternative taken. */
  predicate IsMatchSpan(t: string, alternatives: seq<string>, s: Span)
  {
    s.start <= s.end <= |t| &&
    var m := MatchAt(t, s.start, alternatives);
    m.Some? && m.value < |alternatives| && s.end == s.start + |alternatives[m.value]|
  }

  /** The non-overlapping matches that the scan reports from position `p` on,
      left to right. */
  function Spans(t: string, alternatives: seq<string>, p: nat): (r: seq<Span>)
    requires NonEmptyEntries(alternatives) && p <= |t|
    decreases |t| - p
  {
    if p == |t| then []
    else
      match MatchAt(t, p, alternatives)
      case Some(i) => [Span(p, p + |alternatives[i]|)] + Spans(t, alternatives, p + |alternatives[i]|)
      case None => Spans(t, alternatives, p + 1)
  }

  /** The reported spans are non-empty and lie in the text from `p` on. */
  lemma {:induction false} SpansInText(t: string, alternatives: seq<string>, p: nat)
    requires NonEmptyEntries(alternatives) && p <= |t|
    ensures forall k :: 0 <= k < |Spans(t, alternatives, p)| ==>
              p <= Spans(t, alternatives, p)[k].start < Spans(t, alternatives, p)[k].end <= |t|
    decreases |t| - p
  {
    if p < |t| {
      match MatchAt(t, p, alternatives)
      case Some(i) =>
        var e := p + |alternatives[i]|;
        SpansInText(t, alternatives, e);
        assert Spans(t, alternatives, p) == [Span(p, e)] + Spans(t, alternatives, e);
      case None =>
        SpansInText(t, alternatives, p + 1);
    }
  }

  /** Every reported span is the match the pattern makes at its start, and the
      spans come left to right without overlapping. */
  lemma {:induction false} SpansAreMatches(t: string, alternatives: seq<string>, p: nat)
    requires NonEmptyEntries(alternatives) && p <= |t|
    ensures forall k :: 0 <= k < |Spans(t, alternatives, p)| ==> IsMatchSpan(t, alternatives, Spans(t, alternatives, p)[k])
    ensures forall k :: 0 <= k < |Spans(t, alternatives, p)| - 1 ==>
              Spans(t, alternatives, p)[k].end <= Spans(t, alternatives, p)[k + 1].start
    decreases |t| - p
  {
    if p < |t| {
      match MatchAt(t, p, alternatives)
      case Some(i) =>
        var e := p + |alternatives[i]|;
        var rest := Spans(t, alternatives, e);
        SpansAreMatches(t, alternatives, e);
        SpansInText(t, alternatives, e);
        assert Spans(t, alternatives, p) == [Span(p, e)] + rest;
      case None =>
        SpansAreMatches(t, alternatives, p + 1);
    }
  }

  predicate InText(t: string, spans: seq<Span>) {
    forall k :: 0 <= k < |spans| ==> spans[k].start <= spans[k].end <= |t|
  }

  /** The text a span covers (empty for a span outside the text, which the
      scan never reports). */
  function MatchedText(t: string, s: Span): string {
    if s.start <= s.end <= |t| then t[s.start..s.end] else []
  }

  /** The matched texts of `spans`, as `findall` returns them (the text as
      written, not the alternative it matched). */
  function MatchedTexts(t: string, spans: seq<Span>): (r: seq<string>)
    ensures |r| == |spans|
  {
    if spans == [] then [] else [MatchedText(t, spans[0])] + MatchedTexts(t, spans[1..])
  }

  lemma {:induction false} MatchedTextAt(t: string, spans: seq<Span>, k: nat)
    requires InText(t, spans) && k < |spans|
    ensures MatchedTexts(t, spans)[k] == t[spans[k].start..spans[k].end]
  {
    if k > 0 {
      MatchedTextAt(t, spans[1..], k - 1);
    }
  }

  /** `pattern.findall(t)`. */
  function FindAllSpec(t: string, alternatives: seq<string>): seq<string>
    requires NonEmptyEntries(alternatives)
  {
    FoundFrom(t, alternatives, 0)
  }

  /** Covered by one of the spans. */
  predicate Covered(spans: seq<Span>, q: nat) {
    exists k :: 0 <= k < |spans| && spans[k].start <= q < spans[k].end
  }

  /** Nothing is skipped: every position from `p` on where the pattern could
      match either starts a reported match or lies inside an earlier one. */
  lemma {:induction false} NoMatchSkipped(t: string, alternatives: seq<string>, p: nat, q: nat)
    requires NonEmptyEntries(alternatives) && p <= q < |t|
    requires MatchAt(t, q, alternatives).Some?
    ensures Covered(Spans(t, alternatives, p), q)
    decreases |t| - p
  {
    var r := Spans(t, alternatives, p);
    var m := MatchAt(t, p, alternatives);
    if m.Some? {
      var e := p + |alternatives[m.value]|;
      var rest := Spans(t, alternatives, e);
      assert r == [Span(p, e)] + rest;
      if q < e {
        assert r[0].start <= q < r[0].end;
      } else {
        NoMatchSkipped(t, alternatives, e, q);
        var k :| 0 <= k < |rest| && rest[k].start <= q < rest[k].end;
        assert r[k + 1] == rest[k];
      }
    } else {
      assert q != p;
      NoMatchSkipped(t, alternatives, p + 1, q);
      assert r == Spans(t, alternatives, p + 1);
    }
  }

  /** A reported match lies between two word boundaries, equals (ignoring case)
      the alternative taken, and no earlier alternative fits there. */
  lemma SpanIsFirstFittingAlternative(t: string, alternatives: seq<string>, s: Span)
    requires IsMatchSpan(t, alternatives, s)
    ensures IsBoundary(t, s.start) && IsBoundary(t, s.end)
    ensures exists i :: 0 <= i < |alternatives| && EqualIgnoringCase(t[s.start..s.end], alternatives[i])
                        && forall j :: 0 <= j < i ==> !FitsAt(t, s.start, alternatives[j])
  {
    FirstFitIsFirst(t, s.start, alternatives, 0);
    var i := MatchAt(t, s.start, alternatives).value;
    assert FitsAt(t, s.start, alternatives[i]);
  }

  /** The case-insensitive comparison is symmetric and transitive in the way the
      scan needs: replacing a text by one that folds to the same characters
      keeps the comparison with any alternative. */
  lemma EqualIgnoringCaseReplace(a: string, b: string, w: string)
    requires EqualIgnoringCase(a, b)
    ensures EqualIgnoringCase(a, w) == EqualIgnoringCase(b, w)
  {
    EqualIgnoringCaseAt(a, b);
    EqualIgnoringCaseAt(a, w);
    EqualIgnoringCaseAt(b, w);
  }

  /** Folding keeps `\b`: two texts that fold alike have the same boundaries. */
  lemma BoundaryIgnoresCase(t1: string, t2: string, q: nat)
    requires EqualIgnoringCase(t1, t2) && q <= |t1|
    ensures |t1| == |t2| && IsBoundary(t1, q) == IsBoundary(t2, q)
  {
    EqualIgnoringCaseAt(t1, t2);
    if q > 0 { FoldKeepsWordChar(t1[q - 1]); FoldKeepsWordChar(t2[q - 1]); }
    if q < |t1| { FoldKeepsWordChar(t1[q]); FoldKeepsWordChar(t2[q]); }
  }

  /** An alternative fits at `p` in one text exactly when it fits in a text that
      folds alike. */
  lemma FitsIgnoresCase(t1: string, t2: string, p: nat, w: string)
    requires EqualIgnoringCase(t1, t2) && p <= |t1|
    ensures |t1| == |t2| && FitsAt(t1, p, w) == FitsAt(t2, p, w)
  {
    EqualIgnoringCaseAt(t1, t2);
    if p + |w| <= |t1| {
      var a, b := t1[p..p + |w|], t2[p..p + |w|];
      EqualIgnoringCaseAt(a, b);
      EqualIgnoringCaseReplace(a, b, w);
      BoundaryIgnoresCase(t1, t2, p + |w|);
    }
  }

  /** The pattern's attempt at `p` is the same in two texts that fold alike. */
  lemma MatchAtIgnoresCase(t1: string, t2: string, alternatives: seq<string>, p: nat)
    requires EqualIgnoringCase(t1, t2) && p <= |t1|
    ensures |t1| == |t2| && MatchAt(t1, p, alternatives) == MatchAt(t2, p, alternatives)
  {
    BoundaryIgnoresCase(t1, t2, p);
    forall w | w in alternatives ensures FitsAt(t1, p, w) == FitsAt(t2, p, w) {
      FitsIgnoresCase(t1, t2, p, w);
    }
    FirstFitIgnoresCase(t1, t2, alternatives, p, 0);
  }

  /** The scan of two texts that differ only in the case of ASCII letters
      reports the same spans from every position. */
  lemma {:induction false} SpansIgnoreCase(t1: string, t2: string, alternatives: seq<string>, p: nat)
    requires NonEmptyEntries(alternatives) && p <= |t1|
    requires EqualIgnoringCase(t1, t2)
    ensures p <= |t2| && Spans(t1, alternatives, p) == Spans(t2, alternatives, p)
    decreases |t1| - p
  {
    MatchAtIgnoresCase(t1, t2, alternatives, p);
    if p < |t1| {
      var m := MatchAt(t1, p, alternatives);
      if m.Some? {
        var e := p + |alternatives[m.value]|;
        SpansIgnoreCase(t1, t2, alternatives, e);
        assert Spans(t1, alternatives, p) == [Span(p, e)] + Spans(t1, alternatives, e);
        assert Spans(t2, alternatives, p) == [Span(p, e)] + Spans(t2, alternatives, e);
      } else {
        SpansIgnoreCase(t1, t2, alternatives, p + 1);
        assert Spans(t1, alternatives, p) == Spans(t1, alternatives, p + 1);
        assert Spans(t2, alternatives, p) == Spans(t2, alternatives, p + 1);
      }
    }
  }

  lemma {:induction false} FirstFitIgnoresCase(t1: string, t2: string, alternatives: seq<string>, p: nat, i: nat)
    requires p <= |t1| == |t2| && i <= |alternatives|
    requires forall w | w in alternatives :: FitsAt(t1, p, w) == FitsAt(t2, p, w)
    ensures FirstFit(t1, p, alternatives, i) == FirstFit(t2, p, alternatives, i)
    decreases |alternatives| - i
  {
    if i < |alternatives| {
      assert alternatives[i] in alternatives;
      FirstFitIgnoresCase(t1, t2, alternatives, p, i + 1);
    }
  }

  /** Every string `findall` returns is a stretch of the text between two word
      boundaries that equals, ignoring case, one of the alternatives. */
  lemma FoundIsAlternative(t: string, alternatives: seq<string>, k: nat)
    requires NonEmptyEntries(alternatives) && k < |FindAllSpec(t, alternatives)|
    ensures exists i :: 0 <= i < |alternatives| && EqualIgnoringCase(FindAllSpec(t, alternatives)[k], alternatives[i])
    ensures exists s, e :: 0 <= s <= e <= |t| && FindAllSpec(t, alternatives)[k] == t[s..e]
                           && IsBoundary(t, s) && IsBoundary(t, e)
  {
    var spans := Spans(t, alternatives, 0);
    SpansInText(t, alternatives, 0);
    SpansAreMatches(t, alternatives, 0);
    MatchedTextAt(t, spans, k);
    SpanIsFirstFittingAlternative(t, alternatives, spans[k]);
  }

  /** `findall` on two texts that differ only in the case of ASCII letters
      returns, position by position, strings that differ only in case. */
  lemma FindAllIgnoresCase(t1: string, t2: string, alternatives: seq<string>)
    requires NonEmptyEntries(alternatives) && EqualIgnoringCase(t1, t2)
    ensures |FindAllSpec(t1, alternatives)| == |FindAllSpec(t2, alternatives)|
    ensures forall k :: 0 <= k < |FindAllSpec(t1, alternatives)| ==>
              EqualIgnoringCase(FindAllSpec(t1, alternatives)[k], FindAllSpec(t2, alternatives)[k])
  {
    SpansIgnoreCase(t1, t2, alternatives, 0);
    var spans := Spans(t1, alternatives, 0);
    SpansInText(t1, alternatives, 0);
    EqualIgnoringCaseAt(t1, t2);
    forall k | 0 <= k < |spans|
      ensures EqualIgnoringCase(FindAllSpec(t1, alternatives)[k], FindAllSpec(t2, alternatives)[k])
    {
      MatchedTextAt(t1, spans, k);
      MatchedTextAt(t2, spans, k);
      var s, e := spans[k].start, spans[k].end;
      forall i | 0 <= i < e - s ensures FoldChar(t1[s..e][i]) == FoldChar(t2[s..e][i]) {
        assert t1[s..e][i] == t1[s + i] && t2[s..e][i] == t2[s + i];
      }
      EqualIgnoringCaseAt(t1[s..e], t2[s..e]);
    }
  }

  /** The regular expression's attempt at position `p`. */
  method MatchAlternatives(t: string, p: nat, alternatives: seq<string>) returns (m: Option<nat>)
    requires p <= |t|
    ensures m == MatchAt(t, p, alternatives)
  {
    if !IsBoundary(t, p) {
      return None;
    }
    var i := 0;
    while i < |alternatives|
      invariant i <= |alternatives|
      invariant FirstFit(t, p, alternatives, i) == FirstFit(t, p, alternatives, 0)
    {
      var w := alternatives[i];
      if p + |w| <= |t| && EqualIgnoringCase(t[p..p + |w|], w) && IsBoundary(t, p + |w|) {
        return Some(i);
      }
      i := i + 1;
    }
    return None;
  }

  /** The matched texts the scan reports from position `p` on. */
  function FoundFrom(t: string, alternatives: seq<string>, p: nat): seq<string>
    requires NonEmptyEntries(alternatives) && p <= |t|
  {
    MatchedTexts(t, Spans(t, alternatives, p))
  }

  /** One step of the scan, on the matched texts. */
  lemma FoundStep(t: string, alternatives: seq<string>, p: nat, m: Option<nat>)
    requires NonEmptyEntries(alternatives) && p < |t|
    requires m == MatchAt(t, p, alternatives)
    ensures m.Some? ==> m.value < |alternatives| && p + |alternatives[m.value]| <= |t|
    ensures m.Some? ==>
              FoundFrom(t, alternatives, p)
              == [t[p..p + |alternatives[m.value]|]] + FoundFrom(t, alternatives, p + |alternatives[m.value]|)
    ensures m.None? ==> FoundFrom(t, alternatives, p) == FoundFrom(t, alternatives, p + 1)
  {
    if m.Some? {
      var e := p + |alternatives[m.value]|;
      var rest := Spans(t, alternatives, e);
      assert Spans(t, alternatives, p) == [Span(p, e)] + rest;
      assert ([Span(p, e)] + rest)[1..] == rest;
    }
  }

  /** `pattern.findall(t)`: the matched texts, left to right, without overlap. */
  method FindAll(t: string, alternatives: seq<string>) returns (matches: seq<string>)
    requires NonEmptyEntries(alternatives)
    ensures matches == FindAllSpec(t, alternatives)
  {
    matches := [];
    var p := 0;
    while p < |t|
      invariant p <= |t|
      invariant matches + FoundFrom(t, alternatives, p) == FoundFrom(t, alternatives, 0)
      decreases |t| - p
    {
      var m := MatchAlternatives(t, p, alternatives);
      FoundStep(t, alternatives, p, m);
      if m.Some? {
        var e := p + |alternatives[m.value]|;
        var found := t[p..e];
        ghost var rest := FoundFrom(t, alternatives, e);
        assert matches + ([found] + rest) == (matches + [found]) + rest;
        matches := matches + [found];
        p := e;
      } else {
        p := p + 1;
      }
    }
    assert FoundFrom(t, alternatives, p) == [];
  }
}
