/**
 * The request handler `process(video, words_str, model_name)`: it parses the
 * comma-separated term list, runs the extraction and transcription stages in
 * order (turning each stage's failure into a one-line message), counts the
 * terms in the transcript and formats the report.
 */
module Pipeline {
  import opened Outcomes
  import opened PyStr
  import opened Counting
  import opened ModelCaching

  const NoVideoMessage := "Please upload a video."
  const NoTermsMessage := "Please provide at least one parasite word, comma separated."
  const ExtractErrorPrefix := "Error while extracting audio: "
  const TranscribeErrorPrefix := "Error while transcribing audio: "
  const TotalPrefix := "Total parasite words: "

  // ----------------------------------------------------------- term parsing

  /** A parsed term: non-empty, with no whitespace at either end. */
  predicate IsTrimmedTerm(t: string)
  {
    t != [] && !IsSpace(t[0]) && !IsSpace(t[|t| - 1])
  }

  /** No string of the list contains a comma. */
  predicate NoComma(ws: seq<string>)
  {
    forall k :: 0 <= k < |ws| ==> ',' !in ws[k]
  }

  /** One piece's contribution to the comprehension: its stripped text, unless that is empty. */
  function StripPart(part: string): (terms: seq<string>)
    ensures |terms| <= 1
    ensures forall k :: 0 <= k < |terms| ==> IsTrimmedTerm(terms[k])
    ensures ',' !in part ==> NoComma(terms)
  {
    var t := Strip(part);
    assert ',' in t ==> ',' in part by {
      if ',' in t { StripKeepsOnlyInputChars(part, ','); }
    }
    if t != [] then [t] else []
  }

  /** `[w.strip() for w in parts if w.strip()]` */
  function StripNonEmpty(parts: seq<string>): (terms: seq<string>)
    ensures forall k :: 0 <= k < |terms| ==> IsTrimmedTerm(terms[k])
    ensures NoComma(parts) ==> NoComma(terms)
  {
    if parts == [] then [] else StripPart(parts[0]) + StripNonEmpty(parts[1..])
  }

  /**
   * `[w.strip() for w in words_str.split(",") if w.strip()]`: every term is
   * non-empty, starts and ends with a non-whitespace character, and holds
   * no comma.
   */
  function ParseTerms(wordsStr: string): (terms: seq<string>)
    ensures forall k :: 0 <= k < |terms| ==> IsTrimmedTerm(terms[k]) && ',' !in terms[k]
  {
    var parts := Split(wordsStr, ',');
    assert NoComma(parts);
    StripNonEmpty(parts)
  }

  /** Stripping a parsed term again changes nothing. */
  lemma ParsedTermsAreStripped(wordsStr: string)
    ensures forall k :: 0 <= k < |ParseTerms(wordsStr)| ==> Strip(ParseTerms(wordsStr)[k]) == ParseTerms(wordsStr)[k]
  {
    var terms := ParseTerms(wordsStr);
    forall k | 0 <= k < |terms| ensures Strip(terms[k]) == terms[k] {
      StripFixed(terms[k]);
    }
  }

  /** The input holds nothing but commas and whitespace. */
  predicate OnlySeparators(s: string)
  {
    forall k :: 0 <= k < |s| ==> s[k] == ',' || IsSpace(s[k])
  }

  /** The comprehension distributes over concatenation, keeping order. */
  lemma {:induction false} StripNonEmptyConcat(a: seq<string>, b: seq<string>)
    ensures StripNonEmpty(a + b) == StripNonEmpty(a) + StripNonEmpty(b)
    decreases |a|
  {
    if a == [] {
      assert a + b == b;
    } else {
      assert (a + b)[0] == a[0];
      assert (a + b)[1..] == a[1..] + b;
      StripNonEmptyConcat(a[1..], b);
    }
  }

  /** An input without a comma yields its stripped self, or nothing when that is empty. */
  lemma ParseTermsOfOnePiece(s: string)
    requires ',' !in s
    ensures ParseTerms(s) == if Strip(s) == [] then [] else [Strip(s)]
  {
    SplitOfOnePiece(s, ',');
    assert StripNonEmpty([s]) == StripPart(s) + StripNonEmpty([]);
  }

  /**
   * Parsing keeps input order: the terms of two comma-joined inputs are the
   * terms of the first followed by those of the second.
   */
  lemma ParseTermsConcat(a: string, b: string)
    ensures ParseTerms(a + [','] + b) == ParseTerms(a) + ParseTerms(b)
  {
    SplitConcat(a, b, ',');
    StripNonEmptyConcat(Split(a, ','), Split(b, ','));
  }

  /** Cutting at the first comma: the first piece's term, if any, then the rest's terms. */
  lemma ParseTermsAtFirstComma(s: string, i: nat)
    requires i < |s| && s[i] == ',' && ',' !in s[..i]
    ensures ParseTerms(s) == StripPart(s[..i]) + ParseTerms(s[i + 1..])
  {
    assert s == s[..i] + [','] + s[i + 1..];
    ParseTermsConcat(s[..i], s[i + 1..]);
    ParseTermsOfOnePiece(s[..i]);
  }

  /**
   * Around the first comma, the input is only separators exactly when the
   * piece before it is all whitespace and the rest is only separators.
   */
  lemma OnlySeparatorsAround(s: string, i: nat)
    requires i < |s| && s[i] == ',' && ',' !in s[..i]
    ensures OnlySeparators(s) <==> AllSpace(s[..i]) && OnlySeparators(s[i + 1..])
  {
    var head, tail := s[..i], s[i + 1..];
    if OnlySeparators(s) {
      assert forall k :: 0 <= k < |head| ==> head[k] == s[k];
    }
    if OnlySeparators(s) {
      assert forall k :: 0 <= k < |tail| ==> tail[k] == s[i + 1 + k];
    }
    if AllSpace(head) && OnlySeparators(tail) {
      forall k | 0 <= k < |s| ensures s[k] == ',' || IsSpace(s[k]) {
        if k < i { assert s[k] == head[k]; }
        else if k > i { assert s[k] == tail[k - i - 1]; }
      }
    }
  }

  /** No term survives parsing exactly when the input is only commas and whitespace. */
  lemma {:induction false} ParseTermsEmptyIff(s: string)
    ensures ParseTerms(s) == [] <==> OnlySeparators(s)
    decreases |s|
  {
    if ',' !in s {
      ParseTermsOfOnePiece(s);
      StripEmptyIff(s);
    } else {
      var i := NextSep(s, ',', 0);
      assert ',' !in s[..i] by {
        assert forall k :: 0 <= k < i ==> s[..i][k] == s[k];
      }
      ParseTermsAtFirstComma(s, i);
      StripEmptyIff(s[..i]);
      ParseTermsEmptyIff(s[i + 1..]);
      OnlySeparatorsAround(s, i);
    }
  }

  /** The concrete piece " Um" parses to the single term "Um". */
  lemma ParseSpaceUm(s: string)
    requires s == " Um"
    ensures ParseTerms(s) == ["Um"]
  {
    ParseTermsOfOnePiece(s);
    assert SkipSpace(s, 1) == 1;
    assert StripStart(s) == 1;
    assert StripEnd(s) == 3;
    assert s[1..3] == "Um";
  }

  /** The concrete piece "um" parses to itself. */
  lemma ParseUm(s: string)
    requires s == "um"
    ensures ParseTerms(s) == ["um"]
  {
    ParseTermsOfOnePiece(s);
    StripFixed(s);
  }

  /** The concrete input "um, Um" yields both terms, in order, with their case kept. */
  lemma ParseUmUm(s: string)
    requires s == "um, Um"
    ensures ParseTerms(s) == ["um", "Um"]
  {
    var first, second := s[..2], s[3..];
    assert s == first + [','] + second;
    ParseTermsConcat(first, second);
    ParseUm(first);
    ParseSpaceUm(second);
  }

  // ------------------------------------------------------- summing the counts

  /** The sum of the values of a map, one per key (`sum(d.values())`). */
  ghost function MapSum(m: map<string, nat>): nat
    decreases |m|
  {
    if m == map[] then 0 else var k :| k in m; m[k] + MapSum(m - {k})
  }

  /** Any key may be taken out of the sum first. */
  lemma {:induction false} MapSumRemove(m: map<string, nat>, k: string)
    requires k in m
    ensures MapSum(m) == m[k] + MapSum(m - {k})
    decreases |m|
  {
    var c :| c in m && MapSum(m) == m[c] + MapSum(m - {c});
    if c != k {
      assert |m - {c}| < |m| by { assert (m - {c}).Keys < m.Keys; }
      assert |m - {k}| < |m| by { assert (m - {k}).Keys < m.Keys; }
      MapSumRemove(m - {c}, k);
      MapSumRemove(m - {k}, c);
      assert m - {c} - {k} == m - {k} - {c};
    }
  }

  /** Adding a new key adds its value to the sum. */
  lemma MapSumAdd(m: map<string, nat>, k: string, v: nat)
    requires k !in m
    ensures MapSum(m[k := v]) == MapSum(m) + v
  {
    MapSumRemove(m[k := v], k);
    assert m[k := v] - {k} == m;
  }

  /** `sum(counts.values())`, iterating over the keys in any order. */
  method SumValues(counts: map<string, nat>) returns (total: nat)
    ensures total == MapSum(counts)
  {
    total := 0;
    var rest := counts;
    while rest != map[]
      invariant total + MapSum(rest) == MapSum(counts)
      decreases |rest|
    {
      var k :| k in rest;
      MapSumRemove(rest, k);
      total := total + rest[k];
      rest := rest - {k};
    }
  }

  // ---------------------------------------------------------------- the report

  /** `f"{w}: {counts.get(w.lower(), 0)}"` */
  function TermLine(term: string, counts: map<string, nat>): string
  {
    term + ": " + NatToString(if Lower(term) in counts then counts[Lower(term)] else 0)
  }

  /**
   * The report's lines: one per term in input order, a blank line, and the
   * total over the counter's keys.
   */
  ghost function ExpectedReport(text: string, terms: seq<string>): seq<string>
  {
    var counts := CountParasiteWords(text, terms);
    seq(|terms|, k requires 0 <= k < |terms| => TermLine(terms[k], counts))
      + ["", TotalPrefix + NatToString(MapSum(counts))]
  }

  /**
   * The report has `|terms| + 2` lines: line `k` prints term `k` as given
   * with its whole-word, case-insensitive occurrence count, then a blank
   * line, then the total.
   */
  lemma ReportShape(text: string, terms: seq<string>)
    ensures |ExpectedReport(text, terms)| == |terms| + 2
    ensures forall k :: 0 <= k < |terms| ==>
              ExpectedReport(text, terms)[k] == terms[k] + ": " + NatToString(ExpectedCount(text, terms[k]))
    ensures ExpectedReport(text, terms)[|terms|] == ""
    ensures ExpectedReport(text, terms)[|terms| + 1] ==
              TotalPrefix + NatToString(MapSum(CountParasiteWords(text, terms)))
  {
    forall k | 0 <= k < |terms|
      ensures ExpectedReport(text, terms)[k] == terms[k] + ": " + NatToString(ExpectedCount(text, terms[k]))
    {
      CountIsExpected(text, terms, terms[k]);
    }
  }

  /** A term whose folded form is already present adds no key and changes no count. */
  lemma DuplicateCountsUnchanged(text: string, terms: seq<string>, x: string)
    requires exists w :: w in terms && Lower(w) == Lower(x)
    ensures CountParasiteWords(text, terms + [x]) == CountParasiteWords(text, terms)
  {
    var w :| w in terms && Lower(w) == Lower(x);
    CountAppend(text, terms, x);
    CountIsExpected(text, terms, w);
    CountIsExpected(text, [x], x);
    var counts := CountParasiteWords(text, terms);
    assert counts[Lower(x) := CountParasiteWords(text, [x])[Lower(x)]] == counts;
  }

  /** With the counts unchanged, one more term adds just its line before the blank one. */
  lemma ReportWithSameCounts(text: string, terms: seq<string>, x: string)
    requires CountParasiteWords(text, terms + [x]) == CountParasiteWords(text, terms)
    ensures ExpectedReport(text, terms + [x]) ==
              ExpectedReport(text, terms)[..|terms|]
              + [TermLine(x, CountParasiteWords(text, terms))]
              + ExpectedReport(text, terms)[|terms|..]
  {
    var counts := CountParasiteWords(text, terms);
    var tail := ["", TotalPrefix + NatToString(MapSum(counts))];
    var lines0 := seq(|terms|, k requires 0 <= k < |terms| => TermLine(terms[k], counts));
    var terms1 := terms + [x];
    var lines1 := seq(|terms1|, k requires 0 <= k < |terms1| => TermLine(terms1[k], counts));
    assert lines1 == lines0 + [TermLine(x, counts)];
    assert ExpectedReport(text, terms) == lines0 + tail;
    assert ExpectedReport(text, terms1) == lines1 + tail;
    assert (lines0 + tail)[..|terms|] == lines0;
    assert (lines0 + tail)[|terms|..] == tail;
  }

  /**
   * A term whose folded form is already present ("um" then "Um") adds one
   * more line but leaves the counts, and so the total, unchanged.
   */
  lemma DuplicateTermCountedOnce(text: string, terms: seq<string>, x: string)
    requires exists w :: w in terms && Lower(w) == Lower(x)
    ensures CountParasiteWords(text, terms + [x]) == CountParasiteWords(text, terms)
    ensures ExpectedReport(text, terms + [x]) ==
              ExpectedReport(text, terms)[..|terms|]
              + [TermLine(x, CountParasiteWords(text, terms))]
              + ExpectedReport(text, terms)[|terms|..]
  {
    DuplicateCountsUnchanged(text, terms, x);
    ReportWithSameCounts(text, terms, x);
  }

  /** Two terms that fold to the same text ("um" and "Um") leave a single key. */
  lemma CaseVariantCounts(text: string, x: string, y: string)
    requires Lower(x) == Lower(y)
    ensures CountParasiteWords(text, [x, y]) == map[Lower(x) := ExpectedCount(text, x)]
  {
    var m := CountParasiteWords(text, [x]);
    assert CountParasiteWords(text, [x, y]) == m by {
      assert [x, y] == [x] + [y];
      assert x in [x];
      DuplicateTermCountedOnce(text, [x], y);
    }
    assert m == map[Lower(x) := ExpectedCount(text, x)] by {
      assert m.Keys == {Lower(x)};
      CountIsExpected(text, [x], x);
    }
  }

  /**
   * The term list "um", "Um" (any two terms that fold to the same text):
   * both lines print the same count, and the total counts it once.
   */
  lemma CaseVariantsTotalOnce(text: string, x: string, y: string)
    requires Lower(x) == Lower(y)
    ensures |ExpectedReport(text, [x, y])| == 4
    ensures ExpectedReport(text, [x, y])[0] == x + ": " + NatToString(ExpectedCount(text, x))
    ensures ExpectedReport(text, [x, y])[1] == y + ": " + NatToString(ExpectedCount(text, x))
    ensures ExpectedReport(text, [x, y])[3] == TotalPrefix + NatToString(ExpectedCount(text, x))
  {
    var c := ExpectedCount(text, x);
    ReportShape(text, [x, y]);
    CaseVariantCounts(text, x, y);
    assert map[Lower(x) := c] == map[][Lower(x) := c];
    MapSumAdd(map[], Lower(x), c);
  }

  /** The sum of the counts printed on the term lines. */
  function LineSum(text: string, terms: seq<string>): nat
  {
    if terms == [] then 0
    else LineSum(text, terms[..|terms| - 1]) + ExpectedCount(text, terms[|terms| - 1])
  }

  /**
   * When no two terms fold to the same text, the total is the sum of the
   * counts on the term lines.
   */
  lemma {:induction false} TotalIsLineSumWhenDistinct(text: string, terms: seq<string>)
    requires forall i, j :: 0 <= i < j < |terms| ==> Lower(terms[i]) != Lower(terms[j])
    ensures MapSum(CountParasiteWords(text, terms)) == LineSum(text, terms)
    decreases |terms|
  {
    if terms == [] {
      assert CountParasiteWords(text, terms) == map[];
    } else {
      var init, x := terms[..|terms| - 1], terms[|terms| - 1];
      var m := CountParasiteWords(text, init);
      assert terms == init + [x];
      assert Lower(x) !in m;
      assert CountParasiteWords(text, terms) == m[Lower(x) := ExpectedCount(text, x)] by {
        CountAppend(text, init, x);
        CountIsExpected(text, [x], x);
      }
      assert MapSum(m) == LineSum(text, init) by {
        TotalIsLineSumWhenDistinct(text, init);
      }
      MapSumAdd(m, Lower(x), ExpectedCount(text, x));
    }
  }

  /** No line of the report holds a line break when no term does. */
  lemma ReportLinesHaveNoBreak(text: string, terms: seq<string>)
    requires forall k :: 0 <= k < |terms| ==> '\n' !in terms[k]
    ensures forall k :: 0 <= k < |ExpectedReport(text, terms)| ==> '\n' !in ExpectedReport(text, terms)[k]
  {
    var r := ExpectedReport(text, terms);
    forall k | 0 <= k < |r| ensures '\n' !in r[k] {
      if k < |terms| {
        var counts := CountParasiteWords(text, terms);
        var digits := NatToString(if Lower(terms[k]) in counts then counts[Lower(terms[k])] else 0);
        assert r[k] == terms[k] + ": " + digits;
        assert '\n' !in digits;
      } else if k == |terms| + 1 {
        assert '\n' !in NatToString(MapSum(CountParasiteWords(text, terms)));
      }
    }
  }

  /**
   * When no term holds a line break, splitting the reply on line breaks gives
   * back exactly the `|terms| + 2` report lines.
   */
  lemma ReplyReadsBack(text: string, terms: seq<string>)
    requires forall k :: 0 <= k < |terms| ==> '\n' !in terms[k]
    ensures Split(Join(ExpectedReport(text, terms), '\n'), '\n') == ExpectedReport(text, terms)
    ensures |Split(Join(ExpectedReport(text, terms), '\n'), '\n')| == |terms| + 2
  {
    ReportLinesHaveNoBreak(text, terms);
    SplitOfJoin(ExpectedReport(text, terms), '\n');
  }

  // -------------------------------------------------------------- the stages

  /** The transcript (`result["text"]`) obtained from a model lookup, or the failure. */
  function TranscriptionOf<H>(model: Result<H>, audio: string, transcribe: (H, string) -> Result<string>): Result<string>
  {
    match model
    case Err(e) => Err(e)
    case Ok(h) => transcribe(h, audio)
  }

  /**
   * `transcribe_audio(audio, model_name)`: gets the model from the cache (see
   * `GetModel`) and runs it on the audio; a loader failure is reported like a
   * transcription failure. Each run is logged in `cache.transcribed`.
   */
  method TranscribeAudio<H>(cache: ModelCache<H>, audio: string, modelName: string,
                            load: string -> Result<H>, transcribe: (H, string) -> Result<string>)
    returns (r: Result<string>)
    requires cache.Valid()
    modifies cache
    ensures cache.Valid()
    ensures r == TranscriptionOf(old(cache.Lookup(modelName, load)), audio, transcribe)
    ensures modelName in old(cache.models) ==>
              cache.models == old(cache.models) && cache.loaderCalls == old(cache.loaderCalls)
              && cache.built == old(cache.built)
    ensures modelName !in old(cache.models) ==> cache.loaderCalls == old(cache.loaderCalls) + [modelName]
    ensures modelName !in old(cache.models) && old(load(modelName)).Ok? ==>
              cache.models == old(cache.models)[modelName := load(modelName).value]
              && cache.built == old(cache.built) + [modelName]
    ensures modelName !in old(cache.models) && old(load(modelName)).Err? ==>
              cache.models == old(cache.models) && cache.built == old(cache.built)
    ensures cache.transcribed == old(cache.transcribed) + [audio]
  {
    cache.transcribed := cache.transcribed + [audio];
    var model := cache.GetModel(modelName, load);
    if model.Err? {
      return Err(model.error);
    }
    r := transcribe(model.value, audio);
  }

  /** The request gets past validation and extraction, so the transcription stage runs. */
  ghost predicate ReachesTranscription(video: Option<string>, wordsStr: string, extract: string -> Outcome)
  {
    video.Some? && ParseTerms(wordsStr) != [] && extract(video.value).Pass?
  }

  /**
   * `process(video, words_str, model_name)`. The checks run in this order:
   * no video, no usable term, extraction failure, transcription failure;
   * each gives its own message, and none of the first three touches the
   * model cache or the loader or starts the transcription stage, which runs
   * exactly once otherwise. Otherwise the reply is the report on the
   * transcript, its lines joined by line breaks. The extracted audio is
   * identified by the video it came from.
   */
  method Process<H>(cache: ModelCache<H>, video: Option<string>, wordsStr: string, modelName: string,
                    extract: string -> Outcome, load: string -> Result<H>,
                    transcribe: (H, string) -> Result<string>)
    returns (reply: string)
    requires cache.Valid()
    modifies cache
    ensures cache.Valid()
    ensures video.None? ==> reply == NoVideoMessage
    ensures video.Some? && ParseTerms(wordsStr) == [] ==> reply == NoTermsMessage
    ensures video.Some? && ParseTerms(wordsStr) != [] && extract(video.value).Fail? ==>
              reply == ExtractErrorPrefix + extract(video.value).error
    ensures !ReachesTranscription(video, wordsStr, extract) ==>
              cache.models == old(cache.models) && cache.loaderCalls == old(cache.loaderCalls)
              && cache.built == old(cache.built) && cache.transcribed == old(cache.transcribed)
    ensures ReachesTranscription(video, wordsStr, extract) ==>
              cache.transcribed == old(cache.transcribed) + [video.value]
    ensures ReachesTranscription(video, wordsStr, extract) ==>
              var t := TranscriptionOf(old(cache.Lookup(modelName, load)), video.value, transcribe);
              && (t.Err? ==> reply == TranscribeErrorPrefix + t.error)
              && (t.Ok? ==> reply == Join(ExpectedReport(t.value, ParseTerms(wordsStr)), '\n'))
    ensures ReachesTranscription(video, wordsStr, extract) && modelName in old(cache.models) ==>
              cache.models == old(cache.models) && cache.loaderCalls == old(cache.loaderCalls)
              && cache.built == old(cache.built)
    ensures ReachesTranscription(video, wordsStr, extract) && modelName !in old(cache.models) ==>
              cache.loaderCalls == old(cache.loaderCalls) + [modelName]
    ensures ReachesTranscription(video, wordsStr, extract) && modelName !in old(cache.models)
            && old(load(modelName)).Ok? ==>
              cache.models == old(cache.models)[modelName := load(modelName).value]
              && cache.built == old(cache.built) + [modelName]
    ensures ReachesTranscription(video, wordsStr, extract) && modelName !in old(cache.models)
            && old(load(modelName)).Err? ==>
              cache.models == old(cache.models) && cache.built == old(cache.built)
  {
    if video.None? {
      return NoVideoMessage;
    }
    var terms := ParseTerms(wordsStr);
    if terms == [] {
      return NoTermsMessage;
    }
    var extraction := extract(video.value);
    if extraction.Fail? {
      return ExtractErrorPrefix + extraction.error;
    }
    var transcription := TranscribeAudio(cache, video.value, modelName, load, transcribe);
    if transcription.Err? {
      return TranscribeErrorPrefix + transcription.error;
    }
    var counts := CountParasiteWords(transcription.value, terms);
    var lines := seq(|terms|, k requires 0 <= k < |terms| => TermLine(terms[k], counts));
    var total := SumValues(counts);
    lines := lines + [""];
    lines := lines + [TotalPrefix + NatToString(total)];
    assert lines == ExpectedReport(transcription.value, terms);
    reply := Join(lines, '\n');
  }
}
