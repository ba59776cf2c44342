// The loop both identifiers share: every match `findall` returns for every
// text is upper-cased and added to a set, and the set is returned as a list.

module Mentions {
  import opened Text
  import opened Scanner

  /** The upper-cased forms of `matches`. */
  function UpperSet(matches: seq<string>): set<string> {
    if matches == [] then {} else UpperSet(matches[..|matches| - 1]) + {Upper(matches[|matches| - 1])}
  }

  lemma {:induction false} UpperSetMembers(matches: seq<string>)
    ensures forall x :: x in UpperSet(matches) <==> exists k :: 0 <= k < |matches| && x == Upper(matches[k])
  {
    if matches != [] {
      var init := matches[..|matches| - 1];
      UpperSetMembers(init);
      forall k | 0 <= k < |init| ensures init[k] == matches[k] { }
    }
  }

  /** The set the identifier has built once it has scanned `texts`. */
  function Mentioned(texts: seq<string>, alternatives: seq<string>): set<string>
    requires NonEmptyEntries(alternatives)
  {
    if texts == [] then {}
    else Mentioned(texts[..|texts| - 1], alternatives) + UpperSet(FindAllSpec(texts[|texts| - 1], alternatives))
  }

  /** A value is in the set exactly when it is the upper case of a match in one
      of the texts. */
  lemma {:induction false} MentionedMembers(texts: seq<string>, alternatives: seq<string>)
    requires NonEmptyEntries(alternatives)
    ensures forall x :: x in Mentioned(texts, alternatives) <==>
              exists j :: 0 <= j < |texts| && x in UpperSet(FindAllSpec(texts[j], alternatives))
  {
    if texts != [] {
      var n := |texts| - 1;
      var init := texts[..n];
      MentionedMembers(init, alternatives);
      assert Mentioned(texts, alternatives) == Mentioned(init, alternatives) + UpperSet(FindAllSpec(texts[n], alternatives));
      forall j | 0 <= j < |init| ensures init[j] == texts[j] { }
    }
  }

  /** Nothing outside the lexicon is reported: every value is the upper case
      of one of the alternatives. */
  lemma MentionedWithinLexicon(texts: seq<string>, alternatives: seq<string>, x: string)
    requires NonEmptyEntries(alternatives) && x in Mentioned(texts, alternatives)
    ensures exists i :: 0 <= i < |alternatives| && x == Upper(alternatives[i])
  {
    MentionedMembers(texts, alternatives);
    var j :| 0 <= j < |texts| && x in UpperSet(FindAllSpec(texts[j], alternatives));
    var found := FindAllSpec(texts[j], alternatives);
    UpperSetMembers(found);
    var k :| 0 <= k < |found| && x == Upper(found[k]);
    FoundIsAlternative(texts[j], alternatives, k);
    var i :| 0 <= i < |alternatives| && EqualIgnoringCase(found[k], alternatives[i]);
    SameUpperWhenEqualIgnoringCase(found[k], alternatives[i]);
  }

  /** Every reported value is in upper case. */
  lemma MentionedAreUpper(texts: seq<string>, alternatives: seq<string>, x: string)
    requires NonEmptyEntries(alternatives) && x in Mentioned(texts, alternatives)
    ensures Upper(x) == x
  {
    MentionedWithinLexicon(texts, alternatives, x);
    var i :| 0 <= i < |alternatives| && x == Upper(alternatives[i]);
    UpperIdempotent(alternatives[i]);
  }

  /** The texts are scanned independently: scanning two runs of texts
      reports the union of what each run reports, so the order of the texts
      and repeated texts do not matter. */
  lemma {:induction false} MentionedAppend(texts1: seq<string>, texts2: seq<string>, alternatives: seq<string>)
    requires NonEmptyEntries(alternatives)
    ensures Mentioned(texts1 + texts2, alternatives) == Mentioned(texts1, alternatives) + Mentioned(texts2, alternatives)
    decreases |texts2|
  {
    if texts2 == [] {
      assert texts1 + texts2 == texts1;
    } else {
      var n := |texts2| - 1;
      MentionedAppend(texts1, texts2[..n], alternatives);
      assert (texts1 + texts2)[..|texts1 + texts2| - 1] == texts1 + texts2[..n];
    }
  }

  /** Matching ignores case: texts that differ only in the case of ASCII
      letters contribute the same values. */
  lemma {:induction false} MentionedIgnoresCase(texts1: seq<string>, texts2: seq<string>, alternatives: seq<string>)
    requires NonEmptyEntries(alternatives) && |texts1| == |texts2|
    requires forall j :: 0 <= j < |texts1| ==> EqualIgnoringCase(texts1[j], texts2[j])
    ensures Mentioned(texts1, alternatives) == Mentioned(texts2, alternatives)
  {
    if texts1 != [] {
      var n := |texts1| - 1;
      MentionedIgnoresCase(texts1[..n], texts2[..n], alternatives);
      var f1, f2 := FindAllSpec(texts1[n], alternatives), FindAllSpec(texts2[n], alternatives);
      FindAllIgnoresCase(texts1[n], texts2[n], alternatives);
      UpperSetMembers(f1);
      UpperSetMembers(f2);
      forall k | 0 <= k < |f1| ensures Upper(f1[k]) == Upper(f2[k]) {
        SameUpperWhenEqualIgnoringCase(f1[k], f2[k]);
      }
      assert UpperSet(f1) == UpperSet(f2);
    }
  }

  /** The nested loops over the texts and over their matches. */
  method CollectMentions(texts: seq<string>, alternatives: seq<string>) returns (identified: set<string>)
    requires NonEmptyEntries(alternatives)
    ensures identified == Mentioned(texts, alternatives)
  {
    identified := {};
    for j := 0 to |texts|
      invariant identified == Mentioned(texts[..j], alternatives)
    {
      var matches := FindAll(texts[j], alternatives);
      for k := 0 to |matches|
        invariant identified == Mentioned(texts[..j], alternatives) + UpperSet(matches[..k])
      {
        assert matches[..k + 1][..k] == matches[..k];
        identified := identified + {Upper(matches[k])};
      }
      assert matches[..|matches|] == matches;
      assert texts[..j + 1][..j] == texts[..j];
    }
    assert texts[..|texts|] == texts;
  }

  predicate Distinct(xs: seq<string>) {
    forall i, j :: 0 <= i < j < |xs| ==> xs[i] != xs[j]
  }

  /** `list(s)`: the elements of the set, each once, in an order the model
      leaves open. */
  method SetToList(s: set<string>) returns (xs: seq<string>)
    ensures Distinct(xs)
    ensures forall x :: x in xs <==> x in s
  {
    xs := [];
    var rest := s;
    while rest != {}
      invariant rest <= s
      invariant forall x :: x in xs <==> x in s && x !in rest
      invariant Distinct(xs)
      decreases |rest|
    {
      var x :| x in rest;
      xs := xs + [x];
      rest := rest - {x};
    }
  }
}
