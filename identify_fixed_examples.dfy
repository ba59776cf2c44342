// The example run of the fixed-lexicon identifier, and the behaviours of the
// pattern that small texts make visible. Each example sentence is written as
// a phrase (its words and the gaps between them), shown to spell the
// sentence, and then scanned with `FindAllOfPhrase`.

module FixedLexiconExamples {
  import opened Text
  import opened Scanner
  import opened WholeWords
  import opened Mentions
  import opened FixedLexicon

  lemma NotEntry(w: string)
    requires !IsEntry(w, StockSymbols) && !IsEntry(w, CompanyNames)
    ensures !IsEntry(w, StockMentions)
  {
    StockMentionsJoined();
    IsEntryAppend(w, StockSymbols, CompanyNames);
  }

  lemma IsName(w: string)
    requires IsEntry(w, CompanyNames)
    ensures IsEntry(w, StockMentions)
  {
    StockMentionsJoined();
    IsEntryAppend(w, StockSymbols, CompanyNames);
  }

  lemma FoundInPhrase(ph: Phrase, t: string, found: seq<string>)
    requires Separated(ph) && Render(ph) == t && EntryWords(ph, StockMentions) == found
    ensures FindAllSpec(t, StockMentions) == found
  {
    StockMentionsAreWords();
    FindAllOfPhrase([], ph, StockMentions);
    assert [] + Render(ph) == t;
  }

  /** A single subtitle reports the upper case of its matches. */
  lemma MentionedSingle(t: string)
    ensures Identified([t]) == UpperSet(FindAllSpec(t, StockMentions))
  {
    StockMentionsAreWords();
    assert [t][..0] == [];
    assert Mentioned([t], StockMentions) == Mentioned([], StockMentions) + UpperSet(FindAllSpec(t, StockMentions));
  }

  const ApplePart3 := Word("rising", " ", Word("steadily", ".", End))
  const ApplePart2 := Word("price", " ", Word("has", " ", Word("been", " ", ApplePart3)))
  const ApplePhrase := Word("Apple", "'", Word("s", " ", Word("stock", " ", ApplePart2)))

  lemma AppleRendered1()
    ensures Render(ApplePhrase) == "Apple's stock " + Render(ApplePart2)
  { }

  lemma AppleRendered2()
    ensures Render(ApplePart2) == "price has been " + Render(ApplePart3)
  { }

  lemma AppleRendered3()
    ensures Render(ApplePart3) == "rising steadily."
  { }

  lemma AppleJoined()
    ensures "Apple's stock " + "price has been " + "rising steadily." == "Apple's stock price has been rising steadily."
  { }

  lemma AppleSpelled()
    ensures Render(ApplePhrase) == "Apple's stock price has been rising steadily."
  {
    AppleRendered1();
    AppleRendered2();
    AppleRendered3();
    AppleJoined();
  }

  lemma AppleSeparated()
    ensures Separated(ApplePhrase)
  { }

  lemma AppleEntries()
    ensures EntryWords(ApplePhrase, StockMentions) == ["Apple"]
  {
    IsName("Apple");
    NotEntry("s");
    NotEntry("stock");
    NotEntry("price");
    NotEntry("has");
    NotEntry("been");
    NotEntry("rising");
    NotEntry("steadily");
  }

  lemma AppleFound()
    ensures FindAllSpec("Apple's stock price has been rising steadily.", StockMentions) == ["Apple"]
  {
    AppleSpelled();
    AppleSeparated();
    AppleEntries();
    FoundInPhrase(ApplePhrase, "Apple's stock price has been rising steadily.", ["Apple"]);
  }

  const GooglePart2 := Word("new", " ", Word("product", " ", Word("today", ".", End)))
  const GooglePhrase := Word("Google", " ", Word("announced", " ", Word("a", " ", GooglePart2)))

  lemma GoogleRendered1()
    ensures Render(GooglePhrase) == "Google announced a " + Render(GooglePart2)
  { }

  lemma GoogleRendered2()
    ensures Render(GooglePart2) == "new product today."
  { }

  lemma GoogleJoined()
    ensures "Google announced a " + "new product today." == "Google announced a new product today."
  { }

  lemma GoogleSpelled()
    ensures Render(GooglePhrase) == "Google announced a new product today."
  {
    GoogleRendered1();
    GoogleRendered2();
    GoogleJoined();
  }

  lemma GoogleSeparated()
    ensures Separated(GooglePhrase)
  { }

  lemma GoogleEntries()
    ensures EntryWords(GooglePhrase, StockMentions) == ["Google"]
  {
    IsName("Google");
    NotEntry("announced");
    NotEntry("a");
    NotEntry("new");
    NotEntry("product");
    NotEntry("today");
  }

  lemma GoogleFound()
    ensures FindAllSpec("Google announced a new product today.", StockMentions) == ["Google"]
  {
    GoogleSpelled();
    GoogleSeparated();
    GoogleEntries();
    FoundInPhrase(GooglePhrase, "Google announced a new product today.", ["Google"]);
  }

  const AmazonPart2 := Word("exceeded", " ", Word("expectations", ".", End))
  const AmazonPhrase := Word("Amazon", "'", Word("s", " ", Word("revenue", " ", AmazonPart2)))

  lemma AmazonRendered1()
    ensures Render(AmazonPhrase) == "Amazon's revenue " + Render(AmazonPart2)
  { }

  lemma AmazonRendered2()
    ensures Render(AmazonPart2) == "exceeded expectations."
  { }

  lemma AmazonJoined()
    ensures "Amazon's revenue " + "exceeded expectations." == "Amazon's revenue exceeded expectations."
  { }

  lemma AmazonSpelled()
    ensures Render(AmazonPhrase) == "Amazon's revenue exceeded expectations."
  {
    AmazonRendered1();
    AmazonRendered2();
    AmazonJoined();
  }

  lemma AmazonSeparated()
    ensures Separated(AmazonPhrase)
  { }

  lemma AmazonEntries()
    ensures EntryWords(AmazonPhrase, StockMentions) == ["Amazon"]
  {
    IsName("Amazon");
    NotEntry("s");
    NotEntry("revenue");
    NotEntry("exceeded");
    NotEntry("expectations");
  }

  lemma AmazonFound()
    ensures FindAllSpec("Amazon's revenue exceeded expectations.", StockMentions) == ["Amazon"]
  {
    AmazonSpelled();
    AmazonSeparated();
    AmazonEntries();
    FoundInPhrase(AmazonPhrase, "Amazon's revenue exceeded expectations.", ["Amazon"]);
  }

  const MicrosoftPart2 := Word("in", " ", Word("AI", " ", Word("technology", ".", End)))
  const MicrosoftPhrase := Word("Microsoft", " ", Word("is", " ", Word("investing", " ", MicrosoftPart2)))

  lemma MicrosoftRendered1()
    ensures Render(MicrosoftPhrase) == "Microsoft is investing " + Render(MicrosoftPart2)
  { }

  lemma MicrosoftRendered2()
    ensures Render(MicrosoftPart2) == "in AI technology."
  { }

  lemma MicrosoftJoined()
    ensures "Microsoft is investing " + "in AI technology." == "Microsoft is investing in AI technology."
  { }

  lemma MicrosoftSpelled()
    ensures Render(MicrosoftPhrase) == "Microsoft is investing in AI technology."
  {
    MicrosoftRendered1();
    MicrosoftRendered2();
    MicrosoftJoined();
  }

  lemma MicrosoftSeparated()
    ensures Separated(MicrosoftPhrase)
  { }

  lemma MicrosoftEntries()
    ensures EntryWords(MicrosoftPhrase, StockMentions) == ["Microsoft"]
  {
    IsName("Microsoft");
    NotEntry("is");
    NotEntry("investing");
    NotEntry("in");
    NotEntry("AI");
    NotEntry("technology");
  }

  lemma MicrosoftFound()
    ensures FindAllSpec("Microsoft is investing in AI technology.", StockMentions) == ["Microsoft"]
  {
    MicrosoftSpelled();
    MicrosoftSeparated();
    MicrosoftEntries();
    FoundInPhrase(MicrosoftPhrase, "Microsoft is investing in AI technology.", ["Microsoft"]);
  }

  const TeslaPart3 := Word("popularity", ".", End)
  const TeslaPart2 := Word("model", " ", Word("is", " ", Word("gaining", " ", TeslaPart3)))
  const TeslaPhrase := Word("Tesla", "'", Word("s", " ", Word("new", " ", TeslaPart2)))

  lemma TeslaRendered1()
    ensures Render(TeslaPhrase) == "Tesla's new " + Render(TeslaPart2)
  { }

  lemma TeslaRendered2()
    ensures Render(TeslaPart2) == "model is gaining " + Render(TeslaPart3)
  { }

  lemma TeslaRendered3()
    ensures Render(TeslaPart3) == "popularity."
  { }

  lemma TeslaJoined()
    ensures "Tesla's new " + "model is gaining " + "popularity." == "Tesla's new model is gaining popularity."
  { }

  lemma TeslaSpelled()
    ensures Render(TeslaPhrase) == "Tesla's new model is gaining popularity."
  {
    TeslaRendered1();
    TeslaRendered2();
    TeslaRendered3();
    TeslaJoined();
  }

  lemma TeslaSeparated()
    ensures Separated(TeslaPhrase)
  { }

  lemma TeslaEntries()
    ensures EntryWords(TeslaPhrase, StockMentions) == ["Tesla"]
  {
    IsName("Tesla");
    NotEntry("s");
    NotEntry("new");
    NotEntry("model");
    NotEntry("is");
    NotEntry("gaining");
    NotEntry("popularity");
  }

  lemma TeslaFound()
    ensures FindAllSpec("Tesla's new model is gaining popularity.", StockMentions) == ["Tesla"]
  {
    TeslaSpelled();
    TeslaSeparated();
    TeslaEntries();
    FoundInPhrase(TeslaPhrase, "Tesla's new model is gaining popularity.", ["Tesla"]);
  }

  const PerformingPart3 := Word("well", ".", End)
  const PerformingPart2 := Word("stocks", " ", Word("are", " ", Word("performing", " ", PerformingPart3)))
  const PerformingPhrase := Word("Tesla", " ", Word("and", " ", Word("Apple", " ", PerformingPart2)))

  lemma PerformingRendered1()
    ensures Render(PerformingPhrase) == "Tesla and Apple " + Render(PerformingPart2)
  { }

  lemma PerformingRendered2()
    ensures Render(PerformingPart2) == "stocks are performing " + Render(PerformingPart3)
  { }

  lemma PerformingRendered3()
    ensures Render(PerformingPart3) == "well."
  { }

  lemma PerformingJoined()
    ensures "Tesla and Apple " + "stocks are performing " + "well." == "Tesla and Apple stocks are performing well."
  { }

  lemma PerformingSpelled()
    ensures Render(PerformingPhrase) == "Tesla and Apple stocks are performing well."
  {
    PerformingRendered1();
    PerformingRendered2();
    PerformingRendered3();
    PerformingJoined();
  }

  lemma PerformingSeparated()
    ensures Separated(PerformingPhrase)
  { }

  lemma PerformingEntries()
    ensures EntryWords(PerformingPhrase, StockMentions) == ["Tesla", "Apple"]
  {
    IsName("Tesla");
    NotEntry("and");
    IsName("Apple");
    NotEntry("stocks");
    NotEntry("are");
    NotEntry("performing");
    NotEntry("well");
  }

  lemma PerformingFound()
    ensures FindAllSpec("Tesla and Apple stocks are performing well.", StockMentions) == ["Tesla", "Apple"]
  {
    PerformingSpelled();
    PerformingSeparated();
    PerformingEntries();
    FoundInPhrase(PerformingPhrase, "Tesla and Apple stocks are performing well.", ["Tesla", "Apple"]);
  }

  const NoMentionPart2 := Word("here", ".", End)
  const NoMentionPhrase := Word("No", " ", Word("stock", " ", Word("mentions", " ", NoMentionPart2)))

  lemma NoMentionRendered1()
    ensures Render(NoMentionPhrase) == "No stock mentions " + Render(NoMentionPart2)
  { }

  lemma NoMentionRendered2()
    ensures Render(NoMentionPart2) == "here."
  { }

  lemma NoMentionJoined()
    ensures "No stock mentions " + "here." == "No stock mentions here."
  { }

  lemma NoMentionSpelled()
    ensures Render(NoMentionPhrase) == "No stock mentions here."
  {
    NoMentionRendered1();
    NoMentionRendered2();
    NoMentionJoined();
  }

  lemma NoMentionSeparated()
    ensures Separated(NoMentionPhrase)
  { }

  lemma NoMentionEntries()
    ensures EntryWords(NoMentionPhrase, StockMentions) == []
  {
    NotEntry("No");
    NotEntry("stock");
    NotEntry("mentions");
    NotEntry("here");
  }

  lemma NoMentionFound()
    ensures FindAllSpec("No stock mentions here.", StockMentions) == []
  {
    NoMentionSpelled();
    NoMentionSeparated();
    NoMentionEntries();
    FoundInPhrase(NoMentionPhrase, "No stock mentions here.", []);
  }

  lemma UpperSetOne(w: string)
    ensures UpperSet([w]) == {Upper(w)}
  {
    assert [w][..0] == [];
  }

  /** Subtitles are scanned one by one and their values pooled. */
  lemma IdentifiedCons(t: string, rest: seq<string>)
    ensures Identified([t] + rest) == Identified([t]) + Identified(rest)
  {
    StockMentionsAreWords();
    MentionedAppend([t], rest, StockMentions);
  }

  /** A subtitle with one match reports its upper case. */
  lemma IdentifiedOne(t: string, a: string, ua: string)
    requires FindAllSpec(t, StockMentions) == [a] && Upper(a) == ua
    ensures Identified([t]) == {ua}
  {
    MentionedSingle(t);
    UpperSetOne(a);
  }

  lemma AppleIdentified()
    ensures Identified(["Apple's stock price has been rising steadily."]) == {"APPLE"}
  {
    AppleFound();
    UpperOfMention(5);
    IdentifiedOne("Apple's stock price has been rising steadily.", "Apple", "APPLE");
  }

  lemma GoogleIdentified()
    ensures Identified(["Google announced a new product today."]) == {"GOOGLE"}
  {
    GoogleFound();
    UpperOfMention(6);
    IdentifiedOne("Google announced a new product today.", "Google", "GOOGLE");
  }

  lemma AmazonIdentified()
    ensures Identified(["Amazon's revenue exceeded expectations."]) == {"AMAZON"}
  {
    AmazonFound();
    UpperOfMention(7);
    IdentifiedOne("Amazon's revenue exceeded expectations.", "Amazon", "AMAZON");
  }

  lemma MicrosoftIdentified()
    ensures Identified(["Microsoft is investing in AI technology."]) == {"MICROSOFT"}
  {
    MicrosoftFound();
    UpperOfMention(8);
    IdentifiedOne("Microsoft is investing in AI technology.", "Microsoft", "MICROSOFT");
  }

  lemma TeslaIdentified()
    ensures Identified(["Tesla's new model is gaining popularity."]) == {"TESLA"}
  {
    TeslaFound();
    UpperOfMention(9);
    IdentifiedOne("Tesla's new model is gaining popularity.", "Tesla", "TESLA");
  }

  /** Five subtitles report what each of them reports alone. */
  lemma PoolTwo(d: string, e: string, vd: string, ve: string)
    requires Identified([d]) == {vd} && Identified([e]) == {ve}
    ensures Identified([d, e]) == {vd, ve}
  {
    IdentifiedCons(d, [e]);
    assert [d, e] == [d] + [e];
  }

  lemma PoolThree(c: string, d: string, e: string, vc: string, vd: string, ve: string)
    requires Identified([c]) == {vc} && Identified([d]) == {vd} && Identified([e]) == {ve}
    ensures Identified([c, d, e]) == {vc, vd, ve}
  {
    PoolTwo(d, e, vd, ve);
    IdentifiedCons(c, [d, e]);
    assert [c, d, e] == [c] + [d, e];
  }

  lemma PoolFour(b: string, c: string, d: string, e: string, vb: string, vc: string, vd: string, ve: string)
    requires Identified([b]) == {vb} && Identified([c]) == {vc}
    requires Identified([d]) == {vd} && Identified([e]) == {ve}
    ensures Identified([b, c, d, e]) == {vb, vc, vd, ve}
  {
    PoolThree(c, d, e, vc, vd, ve);
    IdentifiedCons(b, [c, d, e]);
    assert [b, c, d, e] == [b] + [c, d, e];
  }

  lemma PoolFive(a: string, b: string, c: string, d: string, e: string,
                  va: string, vb: string, vc: string, vd: string, ve: string)
    requires Identified([a]) == {va} && Identified([b]) == {vb} && Identified([c]) == {vc}
    requires Identified([d]) == {vd} && Identified([e]) == {ve}
    ensures Identified([a, b, c, d, e]) == {va, vb, vc, vd, ve}
  {
    PoolFour(b, c, d, e, vb, vc, vd, ve);
    IdentifiedCons(a, [b, c, d, e]);
    assert [a, b, c, d, e] == [a] + [b, c, d, e];
  }

  /** The subtitles of the example run. */
  const ExampleSubtitles: seq<string> := [
    "Apple's stock price has been rising steadily.",
    "Google announced a new product today.",
    "Amazon's revenue exceeded expectations.",
    "Microsoft is investing in AI technology.",
    "Tesla's new model is gaining popularity."
  ]

  /** The example run reports exactly the five company names, in capitals. */
  lemma ExampleIdentified()
    ensures Identified(ExampleSubtitles) == {"APPLE", "GOOGLE", "AMAZON", "MICROSOFT", "TESLA"}
  {
    AppleIdentified();
    GoogleIdentified();
    AmazonIdentified();
    MicrosoftIdentified();
    TeslaIdentified();
    PoolFive(ExampleSubtitles[0], ExampleSubtitles[1], ExampleSubtitles[2], ExampleSubtitles[3], ExampleSubtitles[4],
             "APPLE", "GOOGLE", "AMAZON", "MICROSOFT", "TESLA");
  }

  /** A subtitle with two matches reports their upper cases. */
  lemma IdentifiedTwo(t: string, a: string, b: string, ua: string, ub: string)
    requires FindAllSpec(t, StockMentions) == [a, b] && Upper(a) == ua && Upper(b) == ub
    ensures Identified([t]) == {ua, ub}
  {
    MentionedSingle(t);
    UpperSetTwo(a, b);
  }

  /** A name is reported as the upper-cased name, not as its ticker: the test
      that expects the tickers for this sentence disagrees with the code. */
  lemma PerformingIdentified()
    ensures Identified(["Tesla and Apple stocks are performing well."]) == {"TESLA", "APPLE"}
  {
    PerformingFound();
    UpperOfMention(9);
    UpperOfMention(5);
    IdentifiedTwo("Tesla and Apple stocks are performing well.", "Tesla", "Apple", "TESLA", "APPLE");
  }

  lemma NoMentionIdentified()
    ensures Identified(["No stock mentions here."]) == {}
  {
    NoMentionFound();
    MentionedSingle("No stock mentions here.");
  }

  /** In "Google" the symbol GOOGL, tried first, equals the first five letters
      but is not followed by a word boundary there. */
  lemma GooglLacksBoundary()
    ensures EqualIgnoringCase("Google"[..5], StockMentions[1]) && !IsBoundary("Google", 5)
  { }

  /** So the name Google is matched instead, and reported as GOOGLE. */
  lemma GoogleOverGoogl()
    ensures FindAllSpec("Google", StockMentions) == ["Google"]
    ensures Identified(["Google"]) == {"GOOGLE"}
  {
    assert Render(Word("Google", "", End)) == "Google";
    IsName("Google");
    FoundInPhrase(Word("Google", "", End), "Google", ["Google"]);
    UpperOfMention(6);
    IdentifiedOne("Google", "Google", "GOOGLE");
  }

  /** "Amazon" begins "Amazonian" but is not followed by a word boundary there. */
  lemma AmazonPrefixLacksBoundary()
    ensures EqualIgnoringCase("Amazonian"[..6], StockMentions[7]) && !IsBoundary("Amazonian", 6)
  { }

  /** So "Amazonian" reports nothing. */
  lemma AmazonianNotMatched()
    ensures FindAllSpec("Amazonian", StockMentions) == []
    ensures Identified(["Amazonian"]) == {}
  {
    assert Render(Word("Amazonian", "", End)) == "Amazonian";
    NotEntry("Amazonian");
    FoundInPhrase(Word("Amazonian", "", End), "Amazonian", []);
    MentionedSingle("Amazonian");
  }

  const CasesPart2 := Word("ApPlE", "", End)
  const CasesPhrase := Word("apple", ", ", Word("APPLE", " ", Word("and", " ", CasesPart2)))

  lemma CasesRendered1()
    ensures Render(CasesPhrase) == "apple, APPLE and " + Render(CasesPart2)
  { }

  lemma CasesRendered2()
    ensures Render(CasesPart2) == "ApPlE"
  { }

  lemma CasesJoined()
    ensures "apple, APPLE and " + "ApPlE" == "apple, APPLE and ApPlE"
  { }

  lemma CasesSpelled()
    ensures Render(CasesPhrase) == "apple, APPLE and ApPlE"
  {
    CasesRendered1();
    CasesRendered2();
    CasesJoined();
  }

  lemma CasesSeparated()
    ensures Separated(CasesPhrase)
  { }

  lemma CasesEntries()
    ensures EntryWords(CasesPhrase, StockMentions) == ["apple", "APPLE", "ApPlE"]
  {
    IsName("apple");
    IsName("APPLE");
    IsName("ApPlE");
    NotEntry("and");
  }

  /** Three spellings of one name are three matches... */
  lemma CaseVariantsFound()
    ensures FindAllSpec("apple, APPLE and ApPlE", StockMentions) == ["apple", "APPLE", "ApPlE"]
  {
    CasesSpelled();
    CasesSeparated();
    CasesEntries();
    FoundInPhrase(CasesPhrase, "apple, APPLE and ApPlE", ["apple", "APPLE", "ApPlE"]);
  }

  lemma UpperSetTwo(a: string, b: string)
    ensures UpperSet([a, b]) == {Upper(a), Upper(b)}
  {
    assert [a, b][..1] == [a];
    assert UpperSet([a, b]) == UpperSet([a]) + {Upper(b)};
    UpperSetOne(a);
  }

  lemma UpperSetThree(a: string, b: string, c: string)
    ensures UpperSet([a, b, c]) == {Upper(a), Upper(b), Upper(c)}
  {
    assert [a, b, c][..2] == [a, b];
    assert UpperSet([a, b, c]) == UpperSet([a, b]) + {Upper(c)};
    UpperSetTwo(a, b);
  }

  lemma CasesUpper()
    ensures Upper("apple") == "APPLE" && Upper("APPLE") == "APPLE" && Upper("ApPlE") == "APPLE"
  {
    UpperIs("apple", "APPLE");
    UpperIs("APPLE", "APPLE");
    UpperIs("ApPlE", "APPLE");
  }

  /** ...but a single value. */
  lemma CaseVariantsOneValue()
    ensures Identified(["apple, APPLE and ApPlE"]) == {"APPLE"}
  {
    CaseVariantsFound();
    MentionedSingle("apple, APPLE and ApPlE");
    UpperSetThree("apple", "APPLE", "ApPlE");
    CasesUpper();
  }
}
