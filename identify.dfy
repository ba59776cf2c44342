// The identifier whose lexicon is loaded from a JSON file of companies, each
// with a ticker symbol and a name, and whose subtitles are records with a
// start time, an end time and a text.

module Identify {
  import opened Results
  import opened Text
  import opened Pattern
  import opened Scanner
  import opened Mentions

  datatype Company = Company(symbol: string, name: string)

  /** A subtitle record as the SRT conversion writes it, with the times kept
      as text; only `text` is read here. */
  datatype Subtitle = Subtitle(start: string, end: string, text: string)

  function Symbols(companies: seq<Company>): (r: seq<string>)
    ensures |r| == |companies| && forall i :: 0 <= i < |r| ==> r[i] == companies[i].symbol
  {
    seq(|companies|, i requires 0 <= i < |companies| => companies[i].symbol)
  }

  function Names(companies: seq<Company>): (r: seq<string>)
    ensures |r| == |companies| && forall i :: 0 <= i < |r| ==> r[i] == companies[i].name
  {
    seq(|companies|, i requires 0 <= i < |companies| => companies[i].name)
  }

  /** The alternatives of the pattern: every symbol, then every name. */
  function StockMentions(companies: seq<Company>): seq<string> {
    Symbols(companies) + Names(companies)
  }

  /** A lexicon the pattern can be built from without an empty alternative. */
  predicate ValidLexicon(companies: seq<Company>) {
    |companies| > 0 && forall i :: 0 <= i < |companies| ==> companies[i].symbol != [] && companies[i].name != []
  }

  lemma ValidMentions(companies: seq<Company>)
    requires ValidLexicon(companies)
    ensures |StockMentions(companies)| == 2 * |companies| > 0
    ensures NonEmptyEntries(StockMentions(companies))
  {
    var m := StockMentions(companies);
    forall i | 0 <= i < |m| ensures |m[i]| > 0 {
      if i < |companies| {
        assert m[i] == companies[i].symbol;
      } else {
        assert m[i] == companies[i - |companies|].name;
      }
    }
  }

  function Texts(subtitles: seq<Subtitle>): (r: seq<string>)
    ensures |r| == |subtitles| && forall j :: 0 <= j < |r| ==> r[j] == subtitles[j].text
  {
    seq(|subtitles|, j requires 0 <= j < |subtitles| => subtitles[j].text)
  }

  /** The set the identifier builds from a loaded lexicon. */
  function Identified(companies: seq<Company>, subtitles: seq<Subtitle>): set<string>
    requires ValidLexicon(companies)
  {
    ValidMentions(companies);
    Mentioned(Texts(subtitles), StockMentions(companies))
  }

  /** Reports nothing when the company file is missing or is not valid JSON
      (the two errors caught on load); otherwise
      compiles the pattern, scans the text of every subtitle and returns the
      distinct upper-cased matches. */
  method IdentifyStocks(lexicon: Result<seq<Company>, LoadError>, subtitles: seq<Subtitle>) returns (stocks: seq<string>)
    requires lexicon.Success? ==> ValidLexicon(lexicon.value)
    ensures lexicon.Failure? ==> stocks == []
    ensures lexicon.Success? ==> Distinct(stocks) && forall x :: x in stocks <==> x in Identified(lexicon.value, subtitles)
    ensures subtitles == [] ==> stocks == []
  {
    if lexicon.Failure? {
      return [];
    }
    var companies := lexicon.value;
    var mentions := StockMentions(companies);
    ValidMentions(companies);
    CompileRoundTrip(mentions);
    var pattern := Compile(PatternSource(mentions));
    var identified := CollectMentions(Texts(subtitles), pattern.value);
    stocks := SetToList(identified);
    if stocks != [] {
      assert stocks[0] in identified;
    }
  }

  /** Every reported value is the upper case of some company's symbol or name. */
  lemma IdentifiedWithinLexicon(companies: seq<Company>, subtitles: seq<Subtitle>, x: string)
    requires ValidLexicon(companies) && x in Identified(companies, subtitles)
    ensures exists c :: c in companies && (x == Upper(c.symbol) || x == Upper(c.name))
  {
    var m := StockMentions(companies);
    ValidMentions(companies);
    MentionedWithinLexicon(Texts(subtitles), m, x);
    var i :| 0 <= i < |m| && x == Upper(m[i]);
    if i < |companies| {
      assert m[i] == companies[i].symbol;
      assert companies[i] in companies;
    } else {
      assert m[i] == companies[i - |companies|].name;
      assert companies[i - |companies|] in companies;
    }
  }

  /** Only the texts count: timing is never read, and subtitles whose texts
      differ only in letter case report the same values. */
  lemma IdentifiedIgnoresCaseAndTiming(companies: seq<Company>, subs1: seq<Subtitle>, subs2: seq<Subtitle>)
    requires ValidLexicon(companies) && |subs1| == |subs2|
    requires forall j :: 0 <= j < |subs1| ==> EqualIgnoringCase(subs1[j].text, subs2[j].text)
    ensures Identified(companies, subs1) == Identified(companies, subs2)
  {
    ValidMentions(companies);
    MentionedIgnoresCase(Texts(subs1), Texts(subs2), StockMentions(companies));
  }
  /** Every reported value is the upper case of a stretch of some subtitle's
      text between two word boundaries. */
  lemma IdentifiedFromText(companies: seq<Company>, subtitles: seq<Subtitle>, x: string)
    requires ValidLexicon(companies) && x in Identified(companies, subtitles)
    ensures exists j, s, e :: 0 <= j < |subtitles| && 0 <= s <= e <= |subtitles[j].text|
              && IsBoundary(subtitles[j].text, s) && IsBoundary(subtitles[j].text, e)
              && x == Upper(subtitles[j].text[s..e])
  {
    var m := StockMentions(companies);
    var texts := Texts(subtitles);
    ValidMentions(companies);
    MentionedMembers(texts, m);
    var j :| 0 <= j < |texts| && x in UpperSet(FindAllSpec(texts[j], m));
    var found := FindAllSpec(texts[j], m);
    UpperSetMembers(found);
    var k :| 0 <= k < |found| && x == Upper(found[k]);
    FoundIsAlternative(texts[j], m, k);
  }

  /** The sentence of the identifier's test. */
  const PerformingText := "Tesla and Apple stocks are performing well."

  /** A stretch that upper-cases to a four-letter value has four characters,
      each upper-casing to the matching letter. */
  lemma UpperOfFour(t: string, s: nat, e: nat, u: string)
    requires s <= e <= |t| && |u| == 4
    ensures Upper(t[s..e]) == u ==> e == s + 4 && UpperChar(t[s]) == u[0] && UpperChar(t[s + 1]) == u[1]
                                    && UpperChar(t[s + 2]) == u[2] && UpperChar(t[s + 3]) == u[3]
  {
    UpperAt(t[s..e]);
  }

  /** Where the test sentence has a letter that upper-cases to `S` or `P`. */
  lemma PerformingLetters(i: nat)
    requires i < |PerformingText|
    ensures UpperChar(PerformingText[i]) == 'S' ==> i == 2 || i == 16 || i == 21
    ensures UpperChar(PerformingText[i]) == 'P' ==> i == 11 || i == 12 || i == 27
  {
  }

  /** No stretch of the test sentence upper-cases to `TSLA`: each `s` in it
      follows an `e`, an ` ` or a `k`. */
  lemma PerformingSliceNotTsla(s: nat, e: nat)
    requires s <= e <= |PerformingText|
    ensures Upper(PerformingText[s..e]) != "TSLA"
  {
    UpperOfFour(PerformingText, s, e, "TSLA");
    if s + 1 < |PerformingText| {
      PerformingLetters(s + 1);
    }
  }

  /** No stretch of the test sentence upper-cases to `AAPL`: each `p` in it
      follows an `A`, a `p` or a ` `, and the `A` follows a ` `. */
  lemma PerformingSliceNotAapl(s: nat, e: nat)
    requires s <= e <= |PerformingText|
    ensures Upper(PerformingText[s..e]) != "AAPL"
  {
    UpperOfFour(PerformingText, s, e, "AAPL");
    if s + 2 < |PerformingText| {
      PerformingLetters(s + 2);
    }
  }

  /** Whatever the company file holds, the test sentence never reports the
      tickers `TSLA` or `AAPL`: values are upper-cased stretches of the text,
      and the text spells neither ticker. */
  lemma PerformingReportsNoTicker(companies: seq<Company>, start: string, end: string)
    requires ValidLexicon(companies)
    ensures "TSLA" !in Identified(companies, [Subtitle(start, end, PerformingText)])
    ensures "AAPL" !in Identified(companies, [Subtitle(start, end, PerformingText)])
  {
    var subs := [Subtitle(start, end, PerformingText)];
    forall x | x in Identified(companies, subs) ensures x != "TSLA" && x != "AAPL" {
      IdentifiedFromText(companies, subs, x);
      var j, s, e :| 0 <= j < |subs| && 0 <= s <= e <= |subs[j].text| && x == Upper(subs[j].text[s..e]);
      PerformingSliceNotTsla(s, e);
      PerformingSliceNotAapl(s, e);
    }
  }
}
