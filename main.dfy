// The command-line pipeline: the video id is cut from the URL, subtitles are
// extracted, stocks identified and their sentiment analysed, stopping early
// when a stage yields nothing.

module Pipeline {
  import Identify

  /** Whether `sep` occurs in `s` starting at index `i`. */
  predicate OccursAt(s: string, sep: string, i: nat) {
    i + |sep| <= |s| && s[i..i + |sep|] == sep
  }

  predicate Contains(s: string, sep: string) {
    exists i: nat :: i <= |s| && OccursAt(s, sep, i)
  }

  /** Python's `sep.join(parts)`. */
  function Join(parts: seq<string>, sep: string): string
    requires |parts| >= 1
  {
    if |parts| == 1 then parts[0] else parts[0] + sep + Join(parts[1..], sep)
  }

  lemma JoinCons(piece: string, rest: seq<string>, sep: string)
    requires |rest| >= 1
    ensures Join([piece] + rest, sep) == piece + sep + Join(rest, sep)
  {
    assert ([piece] + rest)[1..] == rest;
  }

  lemma SliceAround(s: string, a: nat, b: nat, c: nat)
    requires a <= b <= c <= |s|
    ensures s[a..] == s[a..b] + s[b..c] + s[c..]
  {
  }

  /** Python's `s.split(sep)`: scans left to right from `k`, cutting at each
      occurrence of `sep` that does not overlap the previous one; `start` is
      where the current piece began. */
  function SplitFrom(s: string, sep: string, start: nat, k: nat): (r: seq<string>)
    requires |sep| > 0 && start <= k <= |s|
    ensures |r| >= 1
    decreases |s| - k
  {
    if k + |sep| > |s| then [s[start..]]
    else if OccursAt(s, sep, k) then [s[start..k]] + SplitFrom(s, sep, k + |sep|, k + |sep|)
    else SplitFrom(s, sep, start, k + 1)
  }

  function Split(s: string, sep: string): (r: seq<string>)
    requires |sep| > 0
    ensures |r| >= 1
  {
    SplitFrom(s, sep, 0, 0)
  }

  /** Joining the pieces with the separator gives back the string. */
  lemma {:induction false} SplitFromJoin(s: string, sep: string, start: nat, k: nat)
    requires |sep| > 0 && start <= k <= |s|
    ensures Join(SplitFrom(s, sep, start, k), sep) == s[start..]
    decreases |s| - k
  {
    if k + |sep| > |s| {
      assert SplitFrom(s, sep, start, k) == [s[start..]];
    } else if OccursAt(s, sep, k) {
      var rest := SplitFrom(s, sep, k + |sep|, k + |sep|);
      assert SplitFrom(s, sep, start, k) == [s[start..k]] + rest;
      SplitFromJoin(s, sep, k + |sep|, k + |sep|);
      JoinCons(s[start..k], rest, sep);
      SliceAround(s, start, k, k + |sep|);
    } else {
      assert SplitFrom(s, sep, start, k) == SplitFrom(s, sep, start, k + 1);
      SplitFromJoin(s, sep, start, k + 1);
    }
  }

  lemma SplitJoin(s: string, sep: string)
    requires |sep| > 0
    ensures Join(Split(s, sep), sep) == s
  {
    SplitFromJoin(s, sep, 0, 0);
  }

  /** A piece that no occurrence of `sep` starts inside contains no `sep`. */
  lemma PieceFree(s: string, sep: string, start: nat, end: nat)
    requires start <= end <= |s|
    requires forall j: nat :: start <= j && j + |sep| <= end ==> !OccursAt(s, sep, j)
    ensures !Contains(s[start..end], sep)
  {
    forall i: nat | OccursAt(s[start..end], sep, i) ensures false {
      assert i + |sep| <= end - start;
      var inner, outer := s[start..end][i..i + |sep|], s[start + i..start + i + |sep|];
      assert forall t :: 0 <= t < |sep| ==> inner[t] == s[start + i + t] == outer[t];
      assert inner == outer;
      assert OccursAt(s, sep, start + i);
    }
  }

  /** No piece of a split contains the separator. */
  lemma {:induction false} SplitFromFree(s: string, sep: string, start: nat, k: nat)
    requires |sep| > 0 && start <= k <= |s|
    requires forall j: nat :: start <= j < k ==> !OccursAt(s, sep, j)
    ensures forall m :: 0 <= m < |SplitFrom(s, sep, start, k)| ==> !Contains(SplitFrom(s, sep, start, k)[m], sep)
    decreases |s| - k
  {
    var r := SplitFrom(s, sep, start, k);
    if k + |sep| > |s| {
      PieceFree(s, sep, start, |s|);
      assert s[start..|s|] == s[start..];
    } else if OccursAt(s, sep, k) {
      SplitFromFree(s, sep, k + |sep|, k + |sep|);
      PieceFree(s, sep, start, k);
      assert forall m :: 1 <= m < |r| ==> r[m] == SplitFrom(s, sep, k + |sep|, k + |sep|)[m - 1];
    } else {
      SplitFromFree(s, sep, start, k + 1);
    }
  }

  lemma SplitFree(s: string, sep: string)
    requires |sep| > 0
    ensures forall m :: 0 <= m < |Split(s, sep)| ==> !Contains(Split(s, sep)[m], sep)
  {
    SplitFromFree(s, sep, 0, 0);
  }

  /** The last piece is a suffix that begins where the scan started or right
      after an occurrence of the separator. */
  lemma {:induction false} SplitFromLast(s: string, sep: string, start: nat, k: nat) returns (i: nat)
    requires |sep| > 0 && start <= k <= |s|
    ensures start <= i <= |s|
    ensures SplitFrom(s, sep, start, k)[|SplitFrom(s, sep, start, k)| - 1] == s[i..]
    ensures i == start || (i >= |sep| && OccursAt(s, sep, i - |sep|))
    decreases |s| - k
  {
    if k + |sep| > |s| {
      i := start;
    } else if OccursAt(s, sep, k) {
      var rest := SplitFrom(s, sep, k + |sep|, k + |sep|);
      i := SplitFromLast(s, sep, k + |sep|, k + |sep|);
      assert SplitFrom(s, sep, start, k) == [s[start..k]] + rest;
    } else {
      i := SplitFromLast(s, sep, start, k + 1);
    }
  }

  const Marker := "v="

  /** The video id: the last piece of the URL split at "v=". */
  function VideoId(url: string): string {
    var pieces := Split(url, Marker);
    pieces[|pieces| - 1]
  }

  /** The id is a suffix of the URL that begins at the start of the URL or
      right after a "v=". */
  lemma VideoIdSuffix(url: string) returns (i: nat)
    ensures i <= |url| && VideoId(url) == url[i..]
    ensures i == 0 || (i >= 2 && OccursAt(url, Marker, i - 2))
  {
    i := SplitFromLast(url, Marker, 0, 0);
  }

  /** The id never contains "v=". */
  lemma VideoIdFree(url: string)
    ensures !Contains(VideoId(url), Marker)
  {
    SplitFree(url, Marker);
  }

  /** Together: the id is everything after the last "v=". */
  lemma VideoIdAfterLast(url: string)
    ensures exists i: nat :: i <= |url| && VideoId(url) == url[i..] && !Contains(url[i..], Marker) &&
                           (i == 0 || (i >= 2 && OccursAt(url, Marker, i - 2)))
  {
    var i := VideoIdSuffix(url);
    VideoIdFree(url);
  }

  /** A URL without "v=" is its own id. */
  lemma VideoIdWhole(url: string)
    requires !Contains(url, Marker)
    ensures VideoId(url) == url
  {
    var i := VideoIdSuffix(url);
  }

  /** An occurrence of "v=" at or after `i` is one in the suffix from `i`. */
  lemma MarkerInSuffix(url: string, i: nat, j: nat)
    ensures i <= j && OccursAt(url, Marker, j) ==> Contains(url[i..], Marker)
  {
    if i <= j && OccursAt(url, Marker, j) {
      assert url[i..][j - i..j - i + 2] == url[j..j + 2];
      assert OccursAt(url[i..], Marker, j - i);
    }
  }

  /** Two occurrences of "v=" never overlap. */
  lemma MarkersApart(s: string, a: nat)
    ensures OccursAt(s, Marker, a) ==> !OccursAt(s, Marker, a + 1)
  {
    if OccursAt(s, Marker, a) {
      assert s[a..a + 2][1] == s[a + 1];
    }
  }

  /** A URL that ends in "v=" has the empty id. */
  lemma VideoIdTrailing(url: string)
    requires |url| >= 2 && OccursAt(url, Marker, |url| - 2)
    ensures VideoId(url) == ""
  {
    var i := VideoIdSuffix(url);
    VideoIdFree(url);
    MarkerInSuffix(url, i, |url| - 2);
    if |url| >= 3 {
      MarkersApart(url, |url| - 3);
    }
  }

  /** Whatever follows the last "v=" is the id, query parameters included. */
  lemma VideoIdAfterMarker(prefix: string, id: string)
    requires !Contains(id, Marker)
    ensures VideoId(prefix + Marker + id) == id
  {
    var url := prefix + Marker + id;
    var j := |prefix| + 2;
    assert url[j..] == id;
    assert url[j - 2] == 'v' && url[j - 1] == '=';
    var i := VideoIdSuffix(url);
    VideoIdFree(url);
    assert OccursAt(url, Marker, j - 2) by {
      assert url[j - 2..j] == Marker;
    }
    MarkerInSuffix(url, i, j - 2);
    MarkersApart(url, j - 2);
    if j >= 3 {
      MarkersApart(url, j - 3);
    }
    if i >= 2 {
      MarkerInSuffix(url, j, i - 2);
      assert url[j..] == id;
    }
  }

  /** No "v=" starts at `k` or later, checked character by character. */
  predicate NoMarkerFrom(s: string, k: nat)
    decreases |s| - k
  {
    k + 2 > |s| || (!(s[k] == 'v' && s[k + 1] == '=') && NoMarkerFrom(s, k + 1))
  }

  lemma {:induction false} MarkerFree(s: string, k: nat)
    requires NoMarkerFrom(s, k)
    ensures forall j: nat :: k <= j ==> !OccursAt(s, Marker, j)
    decreases |s| - k
  {
    if k + 2 <= |s| {
      MarkerFree(s, k + 1);
    }
  }

  lemma WatchUrlId()
    ensures VideoId("https://www.youtube.com/watch?v=abc&t=10") == "abc&t=10"
  {
    var id := "abc&t=10";
    MarkerFree(id, 0);
    VideoIdAfterMarker("https://www.youtube.com/watch?", id);
    assert "https://www.youtube.com/watch?" + Marker + id == "https://www.youtube.com/watch?v=abc&t=10";
  }

  /** A call made to one of the stages the pipeline depends on. */
  datatype Call<Stock> =
    | Extract(videoId: string)
    | IdentifyStocks(texts: seq<string>)
    | AnalyzeSentiment(stocks: seq<Stock>)

  /** How a run ends: one of the two early exits, or the final report. */
  datatype Outcome<Stock, Report> =
    | NoSubtitles
    | NoStocks
    | Reported(videoUrl: string, stocks: Report)

  datatype Run<Stock, Report> = Run(calls: seq<Call<Stock>>, outcome: Outcome<Stock, Report>)

  /** The pipeline for one URL, with the three stages as parameters. */
  function RunPipeline<Stock, Report>(
    videoUrl: string,
    extract: string -> seq<Identify.Subtitle>,
    identify: seq<string> -> seq<Stock>,
    analyze: seq<Stock> -> Report): Run<Stock, Report>
  {
    var videoId := VideoId(videoUrl);
    var subtitles := extract(videoId);
    if subtitles == [] then
      Run([Extract(videoId)], NoSubtitles)
    else
      var texts := Identify.Texts(subtitles);
      var stocks := identify(texts);
      if stocks == [] then
        Run([Extract(videoId), IdentifyStocks(texts)], NoStocks)
      else
        Run([Extract(videoId), IdentifyStocks(texts), AnalyzeSentiment(stocks)],
            Reported(videoUrl, analyze(stocks)))
  }

  predicate CallsIdentify<Stock>(calls: seq<Call<Stock>>) {
    exists k :: 0 <= k < |calls| && calls[k].IdentifyStocks?
  }

  predicate CallsAnalyze<Stock>(calls: seq<Call<Stock>>) {
    exists k :: 0 <= k < |calls| && calls[k].AnalyzeSentiment?
  }

  /** Without subtitles neither identification nor sentiment runs, and
      nothing is reported. */
  lemma NoSubtitlesStops<Stock, Report>(
    videoUrl: string,
    extract: string -> seq<Identify.Subtitle>,
    identify: seq<string> -> seq<Stock>,
    analyze: seq<Stock> -> Report)
    ensures var run := RunPipeline(videoUrl, extract, identify, analyze);
      extract(VideoId(videoUrl)) == [] <==>
        run.outcome == NoSubtitles && !CallsIdentify(run.calls) && !CallsAnalyze(run.calls)
  {
    var run := RunPipeline(videoUrl, extract, identify, analyze);
    if extract(VideoId(videoUrl)) != [] {
      assert run.calls[1].IdentifyStocks?;
    }
  }

  /** Without identified stocks sentiment never runs. */
  lemma NoStocksStops<Stock, Report>(
    videoUrl: string,
    extract: string -> seq<Identify.Subtitle>,
    identify: seq<string> -> seq<Stock>,
    analyze: seq<Stock> -> Report)
    ensures var run := RunPipeline(videoUrl, extract, identify, analyze);
      var subtitles := extract(VideoId(videoUrl));
      subtitles != [] && identify(Identify.Texts(subtitles)) == [] ==>
        run.outcome == NoStocks && CallsIdentify(run.calls) && !CallsAnalyze(run.calls)
  {
    var run := RunPipeline(videoUrl, extract, identify, analyze);
    var subtitles := extract(VideoId(videoUrl));
    if subtitles != [] && identify(Identify.Texts(subtitles)) == [] {
      assert run.calls[1].IdentifyStocks?;
    }
  }

  /** A report exists exactly when both stages yielded something; it holds
      the sentiment of the stocks found in the subtitles of the video id. */
  lemma ReportedWhenAllYield<Stock, Report>(
    videoUrl: string,
    extract: string -> seq<Identify.Subtitle>,
    identify: seq<string> -> seq<Stock>,
    analyze: seq<Stock> -> Report)
    ensures var run := RunPipeline(videoUrl, extract, identify, analyze);
      var subtitles := extract(VideoId(videoUrl));
      run.outcome.Reported? <==> subtitles != [] && identify(Identify.Texts(subtitles)) != []
    ensures var run := RunPipeline(videoUrl, extract, identify, analyze);
      var subtitles := extract(VideoId(videoUrl));
      run.outcome.Reported? ==>
        run.outcome == Reported(videoUrl, analyze(identify(Identify.Texts(subtitles))))
        && CallsAnalyze(run.calls)
  {
    var run := RunPipeline(videoUrl, extract, identify, analyze);
    if run.outcome.Reported? {
      assert run.calls[2].AnalyzeSentiment?;
    }
  }
}
