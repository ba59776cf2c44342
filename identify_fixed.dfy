// The identifier with a fixed lexicon of five ticker symbols and five
// company names, scanning plain subtitle strings, and the example run that
// ships with it.

module FixedLexicon {
  import opened Text
  import opened Pattern
  import opened Scanner
  import opened WholeWords
  import opened Mentions

  const StockSymbols: seq<string> := ["AAPL", "GOOGL", "AMZN", "MSFT", "TSLA"]
  const CompanyNames: seq<string> := ["Apple", "Google", "Amazon", "Microsoft", "Tesla"]

  /** The alternatives of the pattern, symbols first. */
  const StockMentions: seq<string> :=
    ["AAPL", "GOOGL", "AMZN", "MSFT", "TSLA", "Apple", "Google", "Amazon", "Microsoft", "Tesla"]

  lemma StockMentionsJoined()
    ensures StockMentions == StockSymbols + CompanyNames
  { }

  /** Every alternative is a non-empty run of letters. */
  lemma StockMentionsAreWords()
    ensures WordEntries(StockMentions) && NonEmptyEntries(StockMentions)
  {
    forall i | 0 <= i < |StockMentions| ensures IsWord(StockMentions[i]) {
      var w := StockMentions[i];
      forall k | 0 <= k < |w| ensures IsWordChar(w[k]) {
        assert IsAsciiLetter(w[k]);
      }
    }
  }

  /** The set the identifier builds from the subtitles. */
  function Identified(subtitles: seq<string>): set<string> {
    StockMentionsAreWords();
    Mentioned(subtitles, StockMentions)
  }

  /** Compiles the pattern, scans every subtitle and returns the distinct
      upper-cased matches. */
  method IdentifyStocks(subtitles: seq<string>) returns (stocks: seq<string>)
    ensures Distinct(stocks)
    ensures forall x :: x in stocks <==> x in Identified(subtitles)
    ensures subtitles == [] ==> stocks == []
  {
    StockMentionsAreWords();
    CompileRoundTrip(StockMentions);
    var pattern := Compile(PatternSource(StockMentions));
    var identified := CollectMentions(subtitles, pattern.value);
    stocks := SetToList(identified);
    if stocks != [] {
      assert stocks[0] in identified;
    }
  }

  /** The upper-case forms of the ten alternatives. */
  const Reportable: set<string> := set i | 0 <= i < |UpperMentions| :: UpperMentions[i]

  /** Whatever the subtitles say, only these ten values can be reported. */
  lemma ResultsAmongTen(subtitles: seq<string>, x: string)
    requires x in Identified(subtitles)
    ensures x in Reportable
  {
    StockMentionsAreWords();
    MentionedWithinLexicon(subtitles, StockMentions, x);
    var i :| 0 <= i < |StockMentions| && x == Upper(StockMentions[i]);
    UpperOfMention(i);
  }

  /** The upper case of each alternative, in lexicon order. */
  const UpperMentions: seq<string> :=
    ["AAPL", "GOOGL", "AMZN", "MSFT", "TSLA", "APPLE", "GOOGLE", "AMAZON", "MICROSOFT", "TESLA"]

  lemma UpperOfMention(i: nat)
    requires i < |StockMentions|
    ensures Upper(StockMentions[i]) == UpperMentions[i]
  {
    if i == 0 { UpperIs("AAPL", "AAPL"); }
    else if i == 1 { UpperIs("GOOGL", "GOOGL"); }
    else if i == 2 { UpperIs("AMZN", "AMZN"); }
    else if i == 3 { UpperIs("MSFT", "MSFT"); }
    else if i == 4 { UpperIs("TSLA", "TSLA"); }
    else if i == 5 { UpperIs("Apple", "APPLE"); }
    else if i == 6 { UpperIs("Google", "GOOGLE"); }
    else if i == 7 { UpperIs("Amazon", "AMAZON"); }
    else if i == 8 { UpperIs("Microsoft", "MICROSOFT"); }
    else { UpperIs("Tesla", "TESLA"); }
  }
}
