# Stock mentions in video subtitles — a Dafny model

This project models the text-processing core of a tool that reads the
subtitles of a YouTube video, finds the stocks they mention and reports a
sentiment for each:

- **The stock-mention identifier**, in both of its versions.
  - `identify_stocks.py` has a fixed lexicon of five ticker symbols and five
    company names and scans plain strings.
  - `src/identify_stocks.py` loads its lexicon of `{symbol, name}` records
    from a JSON file and scans the `text` of subtitle records.

  Both build the pattern `\b(e1|e2|…)\b` from the escaped lexicon entries,
  with symbols first, and compile it case-insensitively. They run `findall`
  over every subtitle, add the upper case of each match to a set and return
  the set as a list.
- **The example bucketer** in `src/prepare_examples.py`. It splits a mapping
  from stock to sentiment result into positive, negative and neutral lists
  of one-key mappings, by the sign of `combined_sentiment`.
- **The pipeline** in `src/main.py`:
  - the video id is the last piece of the URL split at `"v="`;
  - the run stops when no subtitles are extracted or no stocks are
    identified.

How the model is laid out:

| file | module | what it holds |
|---|---|---|
| `results.dfy` | `Results` | `Option` and `Result` |
| `text.dfy` | `Text` | ASCII word characters, `\b`, case folding as `re.IGNORECASE` does it, `str.upper` |
| `pattern.dfy` | `Pattern` | `re.escape`, the pattern text, and compiling it back into its list of literal alternatives |
| `scanner.dfy` | `Scanner` | `findall` for `\b(alternation)\b` |
| `words.dfy` | `WholeWords` | what `findall` returns on a text made of whole words |
| `mentions.dfy` | `Mentions` | the loop that collects upper-cased matches into a set, and the set-to-list conversion |
| `identify.dfy` | `Identify` | the JSON-lexicon identifier |
| `identify_fixed.dfy` | `FixedLexicon` | the fixed-lexicon identifier |
| `identify_fixed_examples.dfy` | `FixedLexiconExamples` | the fixed-lexicon identifier on the example and test sentences |
| `prepare_examples.dfy` | `Examples` | the bucketer |
| `main.dfy` | `Pipeline` | `str.split`, the video id, and the gating of the pipeline |

How the regular expression is modelled:

- The alternatives are tried in order at each position. The first one that
  matches ignoring case and is followed by a word boundary wins; this is the
  backtracking into the group that `\b` forces.
- The scan resumes after the match, or one character later when nothing
  matched.
- `findall` returns the matched text as written in the subtitle, since the
  pattern has exactly one group.

The source's loops are written as methods with loops, each proved against a
specification function: `Scanner.MatchAlternatives`, `Scanner.FindAll`,
`Mentions.CollectMentions`, `Mentions.SetToList` and
`Examples.BucketExamples`. The two `IdentifyStocks` methods and
`Examples.PrepareExamples` have no loop of their own; they call these
methods and are proved against the same specification functions.

`Pipeline.RunPipeline` models `main` as a pure function of its three stages, which are passed in as
functions. It returns the calls it made and its outcome.

**Where the code and its tests disagree.** The test at
`src/tests/test_identify_stocks.py:6-9` passes the subtitle record
`{'text': 'Tesla and Apple stocks are performing well.'}` to the identifier
of `src/identify_stocks.py` and expects the tickers `TSLA` and `AAPL`. The
code reports the upper case of the text that matched, not a ticker looked up
from it. The model follows the code:

- `Identify.PerformingReportsNoTicker` proves that, whatever the company
  file holds, neither `TSLA` nor `AAPL` is ever reported for that sentence,
  since every value is an upper-cased stretch of the text
  (`Identify.IdentifiedFromText`).
- `FixedLexiconExamples.PerformingIdentified` proves that, with the fixed
  lexicon of `identify_stocks.py`, the set for that sentence is exactly
  `{"TESLA", "APPLE"}`.

## Model

| member | source | states |
|---|---|---|
| Text.IsWordChar | identify_stocks.py:24 | the characters `\b` counts as word characters: ASCII letters, digits and `_`; `FoldKeepsWordChar` shows folding keeps this |
| Text.IsBoundary | identify_stocks.py:24 | `\b`: a position with a word character on exactly one side, the text's edges counting as non-word; `SpanIsFirstFittingAlternative` puts every match between two of them |
| Text.FoldChar | identify_stocks.py:24 | IGNORECASE's ASCII fold: upper-case letters become their lower-case letter and every other character is kept |
| Text.Upper | identify_stocks.py:30 | `match.upper()`; see `UpperAt` and `UpperIdempotent` |
| Text.UpperAt | identify_stocks.py:30 | `upper` keeps the length and upper-cases each character by the ASCII map, leaving other characters as they are |
| Text.UpperIdempotent | identify_stocks.py:30 | upper-casing a reported value again leaves it unchanged |
| Text.SameUpperWhenEqualIgnoringCase | identify_stocks.py:24-30 | two texts that match alike under IGNORECASE have the same upper case, so case variants of one mention report one value |
| Text.FoldKeepsWordChar | identify_stocks.py:24 | case folding never turns a word character into a non-word one or back, so `\b` is unaffected by IGNORECASE |
| Text.EqualIgnoringCaseAt | identify_stocks.py:24 | matching ignoring case holds exactly when the lengths agree and every pair of characters folds alike |
| Pattern.Escape | identify_stocks.py:24 | `re.escape` of one entry: a backslash before each special character; see `ParseEscaped` |
| Pattern.JoinEscaped | identify_stocks.py:24 | `'\|'.join` of the escaped entries; see `ParseJoined` |
| Pattern.PatternSource | identify_stocks.py:24 | the pattern text `\b(` + join + `)\b`; see `CompileRoundTrip` |
| Pattern.Compile | identify_stocks.py:24 | reads a pattern text back into its list of literal alternatives; see `CompileRoundTrip` |
| Pattern.ParseEscaped | identify_stocks.py:24 | reading an escaped entry back, in front of any parsed tail, yields the entry itself as a literal |
| Pattern.ParseJoined | identify_stocks.py:24 | the `\|`-joined escaped entries parse back into exactly the entries, in order |
| Pattern.CompileRoundTrip | identify_stocks.py:24 | compiling `\b(` + escaped join + `)\b` gives back an alternation of exactly the lexicon entries, in order, each taken literally |
| Scanner.MatchAt | identify_stocks.py:24 | the alternative the pattern matches at one position, if any; characterized by `FirstFitIsFirst` |
| Scanner.Spans | identify_stocks.py:28 | the matches `findall` finds from a position on; pinned down by `SpansAreMatches`, `NoMatchSkipped` and `SpansInText` |
| Scanner.FindAllSpec | identify_stocks.py:28 | `pattern.findall(text)`: the matched texts of the spans; see `FoundIsAlternative` and `FindAll` |
| Scanner.FirstFitIsFirst | identify_stocks.py:24 | the alternative chosen at a position matches there and is followed by a boundary, and no earlier alternative does both; when none is chosen, no alternative does both |
| Scanner.SpanIsFirstFittingAlternative | identify_stocks.py:24 | every match starts and ends on a word boundary and equals, ignoring case, the first alternative that fits there |
| Scanner.SpansInText | identify_stocks.py:28 | every match lies inside the text, after the scan's start, and is non-empty |
| Scanner.SpansAreMatches | identify_stocks.py:28 | every reported span is a match, and the spans come in text order without overlapping |
| Scanner.NoMatchSkipped | identify_stocks.py:28 | every position where the pattern could match either starts a reported match or lies inside an earlier one |
| Scanner.FoundIsAlternative | identify_stocks.py:28 | each string `findall` returns is a slice of the text between two word boundaries and equals some alternative ignoring case |
| Scanner.SpansIgnoreCase | identify_stocks.py:24 | texts that differ only in letter case have identical match spans |
| Scanner.FindAllIgnoresCase | identify_stocks.py:24-28 | texts that differ only in letter case give the same number of matches, pairwise equal ignoring case |
| Scanner.MatchAlternatives | identify_stocks.py:24 | the loop over the alternatives at one position returns the first fitting alternative |
| Scanner.FindAll | identify_stocks.py:28 | the scanning loop returns exactly the `findall` result of the specification |
| WholeWords.FindAllOfPhrase | identify_stocks.py:28 | on a text of whole words separated by non-word gaps, after any leading non-word characters, `findall` returns exactly the words that equal an entry ignoring case, as written and in order |
| Mentions.Mentioned | identify_stocks.py:21-30 | the set of upper-cased matches over all subtitles; see `MentionedMembers`, `MentionedWithinLexicon` and `MentionedAppend` |
| Mentions.UpperSetMembers | identify_stocks.py:29-30 | the values added for one subtitle are exactly the upper cases of its matches |
| Mentions.MentionedMembers | identify_stocks.py:27-30 | a value is in the set exactly when it is the upper case of a match in some subtitle |
| Mentions.MentionedWithinLexicon | identify_stocks.py:27-30 | every value in the set is the upper case of a lexicon entry |
| Mentions.MentionedAreUpper | identify_stocks.py:30 | every value in the set is already in upper case |
| Mentions.MentionedAppend | identify_stocks.py:27-30 | scanning two lists of subtitles one after the other gives the union of their sets, so order and repetition of subtitles do not matter |
| Mentions.MentionedIgnoresCase | identify_stocks.py:24-30 | subtitles that differ only in letter case give the same set |
| Mentions.CollectMentions | identify_stocks.py:21-30 | the nested loops build exactly the set of the specification |
| Mentions.SetToList | identify_stocks.py:32 | the list has no repeated values and holds exactly the members of the set |
| Identify.Symbols | src/identify_stocks.py:32 | one symbol per company, in file order |
| Identify.Names | src/identify_stocks.py:33 | one name per company, in file order |
| Identify.StockMentions | src/identify_stocks.py:36 | the symbols followed by the names; see `ValidMentions` |
| Identify.ValidMentions | src/identify_stocks.py:32-36 | the alternatives are the symbols followed by the names, twice as many as the companies, none empty |
| Identify.Texts | src/identify_stocks.py:49 | only the `text` of each subtitle is scanned, in order |
| Identify.Identified | src/identify_stocks.py:42-52 | the set built from a loaded lexicon; see `IdentifiedWithinLexicon` and `IdentifiedIgnoresCaseAndTiming` |
| Identify.IdentifyStocks | src/identify_stocks.py:21-57 | a missing company file, or one that is not valid JSON, gives `[]`; otherwise the result is duplicate-free and holds exactly the identified values; no subtitles give `[]` |
| Identify.IdentifiedWithinLexicon | src/identify_stocks.py:32-52 | every reported value is the upper case of some company's symbol or name |
| Identify.IdentifiedFromText | src/identify_stocks.py:48-52 | every reported value is the upper case of a stretch of some subtitle's text between two word boundaries |
| Identify.PerformingReportsNoTicker | src/tests/test_identify_stocks.py:6-9 | for every company file, the test sentence never reports `TSLA` or `AAPL`, the values the test expects |
| Identify.IdentifiedIgnoresCaseAndTiming | src/identify_stocks.py:48-52 | start and end times are never read, and subtitles whose texts differ only in case report the same values |
| FixedLexicon.StockMentionsAreWords | identify_stocks.py:14-18 | every one of the ten alternatives is a non-empty run of letters |
| FixedLexicon.Identified | identify_stocks.py:21-30 | the set built with the ten fixed alternatives; see `ResultsAmongTen` |
| FixedLexicon.IdentifyStocks | identify_stocks.py:3-32 | the result is duplicate-free and holds exactly the values identified with the fixed lexicon; no subtitles give `[]` |
| FixedLexicon.ResultsAmongTen | identify_stocks.py:14-32 | whatever the subtitles, only the ten upper-cased symbols and names can be reported |
| FixedLexicon.UpperOfMention | identify_stocks.py:30 | the upper case of each alternative, e.g. `Apple` gives `APPLE` |
| FixedLexiconExamples.AppleIdentified | identify_stocks.py:38 | the first example sentence reports exactly `APPLE` |
| FixedLexiconExamples.GoogleIdentified | identify_stocks.py:39 | the second example sentence reports exactly `GOOGLE` |
| FixedLexiconExamples.AmazonIdentified | identify_stocks.py:40 | the third example sentence reports exactly `AMAZON` (the `'s` does not hide the name) |
| FixedLexiconExamples.MicrosoftIdentified | identify_stocks.py:41 | the fourth example sentence reports exactly `MICROSOFT` |
| FixedLexiconExamples.TeslaIdentified | identify_stocks.py:42 | the fifth example sentence reports exactly `TESLA` |
| FixedLexiconExamples.PoolFive | identify_stocks.py:27-30 | five subtitles that each report one value together report exactly those five values |
| FixedLexiconExamples.ExampleIdentified | identify_stocks.py:37-45 | the example run reports exactly `APPLE`, `GOOGLE`, `AMAZON`, `MICROSOFT` and `TESLA` |
| FixedLexiconExamples.PerformingIdentified | src/tests/test_identify_stocks.py:6-9 | with the fixed lexicon of `identify_stocks.py`, the test sentence reports exactly `TESLA` and `APPLE`, not the tickers the test expects |
| FixedLexiconExamples.NoMentionIdentified | src/tests/test_identify_stocks.py:12-14 | with the fixed lexicon of `identify_stocks.py`, the test's sentence without mentions reports nothing |
| FixedLexiconExamples.GooglLacksBoundary | identify_stocks.py:24 | in "Google" the first five letters equal the symbol GOOGL ignoring case, but position 5 is not a word boundary |
| FixedLexiconExamples.GoogleOverGoogl | identify_stocks.py:24 | so `findall` on "Google" returns the name `Google`, reported as `GOOGLE`, not the earlier alternative GOOGL |
| FixedLexiconExamples.AmazonPrefixLacksBoundary | identify_stocks.py:24 | "Amazonian" begins with the name Amazon ignoring case, but position 6 is not a word boundary |
| FixedLexiconExamples.AmazonianNotMatched | identify_stocks.py:24 | so `findall` on "Amazonian" returns nothing and the set is empty: a name inside a longer word is not a mention |
| FixedLexiconExamples.CaseVariantsFound | identify_stocks.py:24-28 | three spellings of one name in different cases are three matches, as written |
| FixedLexiconExamples.CaseVariantsOneValue | identify_stocks.py:29-30 | the three spellings report the single value `APPLE` |
| Examples.BucketOf | src/prepare_examples.py:25-30 | positive exactly for scores above zero, negative exactly below zero, neutral exactly at zero |
| Examples.ExampleOf | src/prepare_examples.py:26 | the one-key mapping `{stock: result}`; see `SelectedOne` |
| Examples.Selected | src/prepare_examples.py:23-30 | one bucket's list, in input order; see `SelectedSound`, `SelectedComplete`, `SelectedAppend` and `SelectedSizes` |
| Examples.Bucketed | src/prepare_examples.py:17-30 | the three lists under their three keys; `BucketExamples` is proved to build it |
| Examples.BucketExamples | src/prepare_examples.py:17-30 | the loop yields exactly the three keys, each holding the examples of its bucket |
| Examples.PrepareExamples | src/prepare_examples.py:4-30 | nothing is bucketed when the results cannot be read or parsed; otherwise the three-key bucketing of the loaded entries |
| Examples.SelectedSizes | src/prepare_examples.py:23-30 | every entry lands in exactly one bucket: the three sizes sum to the number of entries |
| Examples.SelectedAppend | src/prepare_examples.py:23-30 | bucketing distributes over concatenation, so each bucket keeps the input order |
| Examples.SelectedOne | src/prepare_examples.py:25-30 | a single entry goes to the bucket of its score as its one-key mapping, and to no other |
| Examples.SelectedSound | src/prepare_examples.py:24-30 | every example is the one-key mapping `{stock: result}` of an entry whose score belongs to that bucket, with the result unchanged |
| Examples.SelectedComplete | src/prepare_examples.py:23-30 | every entry appears in the bucket of its score |
| Examples.BucketSigns | src/prepare_examples.py:24-30 | positive examples have scores above zero, negative ones below zero, neutral ones exactly zero |
| Pipeline.Split | src/main.py:13 | `str.split` with a separator; see `SplitJoin` and `SplitFree` |
| Pipeline.VideoId | src/main.py:13 | the last piece of the URL split at `v=`; fixed uniquely by `VideoIdAfterLast` |
| Pipeline.SplitJoin | src/main.py:13 | joining the pieces of `split` with the separator gives back the string |
| Pipeline.SplitFree | src/main.py:13 | no piece of `split` contains the separator |
| Pipeline.VideoIdSuffix | src/main.py:13 | the id is a suffix of the URL that starts at the beginning or right after a `v=` |
| Pipeline.VideoIdFree | src/main.py:13 | the id never contains `v=` |
| Pipeline.VideoIdAfterLast | src/main.py:13 | the id is everything after the last `v=`, or the whole URL when there is none |
| Pipeline.VideoIdWhole | src/main.py:13 | a URL without `v=` is its own id |
| Pipeline.VideoIdTrailing | src/main.py:13 | a URL that ends in `v=` gives the empty id |
| Pipeline.VideoIdAfterMarker | src/main.py:13 | whatever follows a final `v=` is the id, query parameters included |
| Pipeline.WatchUrlId | src/main.py:13 | `https://www.youtube.com/watch?v=abc&t=10` gives `abc&t=10` |
| Pipeline.RunPipeline | src/main.py:11-37 | `main` with its three stages as parameters, returning its calls and outcome; see `NoSubtitlesStops`, `NoStocksStops` and `ReportedWhenAllYield` |
| Pipeline.NoSubtitlesStops | src/main.py:13-18 | exactly when no subtitles are extracted, the run ends there, without identification or sentiment |
| Pipeline.NoStocksStops | src/main.py:21-28 | when subtitles exist but no stocks are identified, the run ends without sentiment analysis |
| Pipeline.ReportedWhenAllYield | src/main.py:11-37 | a report is produced exactly when both stages yield something, and it is the sentiment of the stocks identified in the subtitles of the URL's video id |

## Left out

- Identify.IdentifyStocks: requires a non-empty lexicon with no empty symbol or name. With an empty alternative the pattern matches empty strings at word boundaries, and an empty lexicon gives the pattern `\b()\b`; neither case is modelled.
- Load errors other than the two caught ones. In `Identify.IdentifyStocks` and `Examples.PrepareExamples` only a missing file and text that is not valid JSON are caught and give `[]` or nothing. A company file that is valid JSON but of the wrong shape (a top-level object, a record without `"name"`), a sentiment result without `"combined_sentiment"`, and other read errors such as a permission or decoding error raise in the source. The typed inputs (`Company`, `SentimentResult`, `LoadError`) cannot express them, so the model does not cover those raises.
- Reading the company file, the subtitles file and the sentiment results file, and writing `examples_output.json`. They are I/O. A failed load is an input `Result`; the write error only prints a message.
- All printing. The count of loaded entries, the identified set and the final JSON report are printed, and none of them affects a returned value.
- The order of the returned list. Python's set iteration order is not specified, so the model proves only that the list is duplicate-free and holds exactly the set's members.
- Unicode. Word characters, case folding and `upper` are modelled for ASCII only. Subtitles with non-ASCII letters, and symbols or names in the company file with non-ASCII letters, are matched and upper-cased here by ASCII rules, while Python applies its Unicode rules to them.
- Regular-expression features other than what `\b(literal|literal|…)\b` with IGNORECASE uses. Escaping makes every entry a literal, and the model proves this round trip.
- Sentiment scores are `real`. Floating-point rounding, NaN and infinities are not modelled: a NaN score is neither above nor below zero and would be bucketed as neutral.
- Keys of the sentiment mapping are taken as given, in iteration order. Uniqueness of dictionary keys is not needed by any property.
- Subtitle extraction, stock identification as called from `main`, and sentiment analysis. They are parameters of `Pipeline.RunPipeline`.
- The type mismatches in `src/main.py:21` and `src/main.py:24`. The texts are read from subtitle records and passed on as strings, as the pipeline evidently intends.
- Command-line argument handling in `src/main.py:41-47`.
