// The example bucketer: sentiment results, keyed by stock, are split into
// positive, negative and neutral examples by the sign of their combined score.

module Examples {
  import opened Results

  /** One stock's sentiment analysis; only `combinedSentiment` is read here. */
  datatype SentimentResult = SentimentResult(
    textblobSentiment: real,
    bertSentiment: real,
    bertScore: real,
    rfSentiment: real,
    combinedSentiment: real)

  /** A stock and its result, as one item of the loaded mapping. */
  type Entry = (string, SentimentResult)

  /** A one-key mapping from the stock to its result. */
  type Example = map<string, SentimentResult>

  datatype Bucket = Positive | Negative | Neutral

  const PositiveKey := "positive_sentiment"
  const NegativeKey := "negative_sentiment"
  const NeutralKey := "neutral_sentiment"

  /** The bucket a combined score belongs to. */
  function BucketOf(score: real): (b: Bucket)
    ensures b == Positive <==> score > 0.0
    ensures b == Negative <==> score < 0.0
    ensures b == Neutral <==> score == 0.0
  {
    if score > 0.0 then Positive else if score < 0.0 then Negative else Neutral
  }

  function ExampleOf(e: Entry): Example {
    map[e.0 := e.1]
  }

  /** The examples of bucket `b`, in the order of the entries. */
  function Selected(entries: seq<Entry>, b: Bucket): seq<Example> {
    if entries == [] then []
    else
      var last := entries[|entries| - 1];
      Selected(entries[..|entries| - 1], b)
        + (if BucketOf(last.1.combinedSentiment) == b then [ExampleOf(last)] else [])
  }

  /** The three lists under their keys. */
  function Bucketed(entries: seq<Entry>): map<string, seq<Example>> {
    map[PositiveKey := Selected(entries, Positive),
        NegativeKey := Selected(entries, Negative),
        NeutralKey := Selected(entries, Neutral)]
  }

  /** Starts from three empty lists and appends each entry to the list of its
      bucket. */
  method BucketExamples(entries: seq<Entry>) returns (examples: map<string, seq<Example>>)
    ensures examples.Keys == {PositiveKey, NegativeKey, NeutralKey}
    ensures examples == Bucketed(entries)
  {
    examples := map[PositiveKey := [], NegativeKey := [], NeutralKey := []];
    for i := 0 to |entries|
      invariant examples.Keys == {PositiveKey, NegativeKey, NeutralKey}
      invariant examples[PositiveKey] == Selected(entries[..i], Positive)
      invariant examples[NegativeKey] == Selected(entries[..i], Negative)
      invariant examples[NeutralKey] == Selected(entries[..i], Neutral)
    {
      var (stock, result) := entries[i];
      SelectedStep(entries, i, Positive);
      SelectedStep(entries, i, Negative);
      SelectedStep(entries, i, Neutral);
      assert entries[i] == (stock, result);
      assert map[stock := result] == ExampleOf(entries[i]);
      if result.combinedSentiment > 0.0 {
        examples := examples[PositiveKey := examples[PositiveKey] + [map[stock := result]]];
      } else if result.combinedSentiment < 0.0 {
        examples := examples[NegativeKey := examples[NegativeKey] + [map[stock := result]]];
      } else {
        examples := examples[NeutralKey := examples[NeutralKey] + [map[stock := result]]];
      }
    }
    assert entries[..|entries|] == entries;
    BucketedByKeys(examples, entries);
  }

  /** A map with the three keys holding the three buckets is the bucketing. */
  lemma BucketedByKeys(examples: map<string, seq<Example>>, entries: seq<Entry>)
    requires examples.Keys == {PositiveKey, NegativeKey, NeutralKey}
    requires examples[PositiveKey] == Selected(entries, Positive)
    requires examples[NegativeKey] == Selected(entries, Negative)
    requires examples[NeutralKey] == Selected(entries, Neutral)
    ensures examples == Bucketed(entries)
  {
    var m := Bucketed(entries);
    assert m.Keys == examples.Keys;
    forall key | key in m.Keys ensures examples[key] == m[key] { }
  }

  lemma SelectedStep(entries: seq<Entry>, i: nat, b: Bucket)
    requires i < |entries|
    ensures Selected(entries[..i + 1], b) == Selected(entries[..i], b)
      + (if BucketOf(entries[i].1.combinedSentiment) == b then [ExampleOf(entries[i])] else [])
  {
    assert entries[..i + 1][..i] == entries[..i];
  }

  /** Loads the results, then buckets them; the examples to be saved, or
      nothing when the results could not be loaded. */
  method PrepareExamples(loaded: Result<seq<Entry>, LoadError>) returns (saved: Option<map<string, seq<Example>>>)
    ensures loaded.Failure? ==> saved == None
    ensures loaded.Success? ==> saved.Some? && saved.value.Keys == {PositiveKey, NegativeKey, NeutralKey}
    ensures loaded.Success? ==> saved == Some(Bucketed(loaded.value))
  {
    if loaded.Failure? {
      return None;
    }
    var examples := BucketExamples(loaded.value);
    saved := Some(examples);
  }

  /** Every entry lands in exactly one bucket. */
  lemma {:induction false} SelectedSizes(entries: seq<Entry>)
    ensures |Selected(entries, Positive)| + |Selected(entries, Negative)| + |Selected(entries, Neutral)| == |entries|
  {
    if entries != [] {
      SelectedSizes(entries[..|entries| - 1]);
    }
  }

  /** Bucketing distributes over concatenation, so each bucket keeps the
      order of the entries. */
  lemma {:induction false} SelectedAppend(entries1: seq<Entry>, entries2: seq<Entry>, b: Bucket)
    ensures Selected(entries1 + entries2, b) == Selected(entries1, b) + Selected(entries2, b)
    decreases |entries2|
  {
    if entries2 == [] {
      assert entries1 + entries2 == entries1;
    } else {
      var n := |entries2| - 1;
      SelectedAppend(entries1, entries2[..n], b);
      assert (entries1 + entries2)[..|entries1 + entries2| - 1] == entries1 + entries2[..n];
    }
  }

  /** A single entry goes to the bucket of its score and to no other. */
  lemma SelectedOne(e: Entry, b: Bucket)
    ensures Selected([e], b) == if BucketOf(e.1.combinedSentiment) == b then [ExampleOf(e)] else []
  {
    assert [e][..0] == [];
  }

  /** `example` is the one-key mapping of some entry whose score belongs to
      bucket `b`, with the result unchanged. */
  predicate SelectedFrom(entries: seq<Entry>, b: Bucket, example: Example) {
    exists i :: 0 <= i < |entries| && example == ExampleOf(entries[i]) && BucketOf(entries[i].1.combinedSentiment) == b
  }

  /** Every example of a bucket comes from an entry of that bucket. */
  lemma {:induction false} SelectedSound(entries: seq<Entry>, b: Bucket)
    ensures forall k :: 0 <= k < |Selected(entries, b)| ==> SelectedFrom(entries, b, Selected(entries, b)[k])
  {
    if entries != [] {
      var n := |entries| - 1;
      SelectedSound(entries[..n], b);
      var front := Selected(entries[..n], b);
      assert Selected(entries, b) == front
        + (if BucketOf(entries[n].1.combinedSentiment) == b then [ExampleOf(entries[n])] else []);
      forall k | 0 <= k < |Selected(entries, b)|
        ensures SelectedFrom(entries, b, Selected(entries, b)[k])
      {
        if k < |front| {
          assert SelectedFrom(entries[..n], b, front[k]);
          var i :| 0 <= i < n && front[k] == ExampleOf(entries[..n][i])
            && BucketOf(entries[..n][i].1.combinedSentiment) == b;
          assert entries[..n][i] == entries[i] && Selected(entries, b)[k] == front[k];
        } else {
          assert Selected(entries, b)[k] == ExampleOf(entries[n]) && BucketOf(entries[n].1.combinedSentiment) == b;
        }
      }
    }
  }

  /** Every entry appears in the bucket of its score. */
  lemma {:induction false} SelectedComplete(entries: seq<Entry>, i: nat)
    requires i < |entries|
    ensures ExampleOf(entries[i]) in Selected(entries, BucketOf(entries[i].1.combinedSentiment))
  {
    var n := |entries| - 1;
    if i < n {
      SelectedComplete(entries[..n], i);
      assert entries[..n][i] == entries[i];
    }
  }

  /** So the positive list holds exactly the scores above zero, the negative
      list those below, and the neutral list those equal to zero. */
  lemma BucketSigns(entries: seq<Entry>, k: nat)
    ensures k < |Selected(entries, Positive)| ==>
      exists i :: 0 <= i < |entries| && Selected(entries, Positive)[k] == ExampleOf(entries[i])
        && entries[i].1.combinedSentiment > 0.0
    ensures k < |Selected(entries, Negative)| ==>
      exists i :: 0 <= i < |entries| && Selected(entries, Negative)[k] == ExampleOf(entries[i])
        && entries[i].1.combinedSentiment < 0.0
    ensures k < |Selected(entries, Neutral)| ==>
      exists i :: 0 <= i < |entries| && Selected(entries, Neutral)[k] == ExampleOf(entries[i])
        && entries[i].1.combinedSentiment == 0.0
  {
    SelectedSound(entries, Positive);
    SelectedSound(entries, Negative);
    SelectedSound(entries, Neutral);
    if k < |Selected(entries, Positive)| {
      assert SelectedFrom(entries, Positive, Selected(entries, Positive)[k]);
      var i :| 0 <= i < |entries| && Selected(entries, Positive)[k] == ExampleOf(entries[i])
        && BucketOf(entries[i].1.combinedSentiment) == Positive;
    }
    if k < |Selected(entries, Negative)| {
      assert SelectedFrom(entries, Negative, Selected(entries, Negative)[k]);
      var i :| 0 <= i < |entries| && Selected(entries, Negative)[k] == ExampleOf(entries[i])
        && BucketOf(entries[i].1.combinedSentiment) == Negative;
    }
    if k < |Selected(entries, Neutral)| {
      assert SelectedFrom(entries, Neutral, Selected(entries, Neutral)[k]);
      var i :| 0 <= i < |entries| && Selected(entries, Neutral)[k] == ExampleOf(entries[i])
        && BucketOf(entries[i].1.combinedSentiment) == Neutral;
    }
  }
}
