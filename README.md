# Paralyze: parasite-word counting, modelled in Dafny

Paralyze takes a video and a comma-separated list of "parasite" terms (filler
words such as "um", "uh", "like"). It extracts the audio track, transcribes
it with a Whisper speech-to-text model, and replies with one line per term
giving how often the term occurs in the transcript, then a blank line and the
total. This project models the request handler `process`, the counter
`count_parasite_words`, and the process-wide model cache `get_model` /
`MODEL_CACHE` of `web_app.py`. It proves what these guarantee.

The modules follow the program:

- `Outcomes` (`outcomes.dfy`): `Option`, `Result` and the pass/fail
  `Outcome` of a stage. A Python exception is the `Err`/`Fail` case, carrying
  the exception's message.
- `PyStr` (`pystr.dfy`): the few Python string operations the core uses:
  - `lower()` / `upper()` (ASCII);
  - `strip()` (ASCII whitespace);
  - `split(",")` and `"\n".join(...)` for a one-character separator;
  - `str(n)` for a natural number.

  Each operation comes with its partner: split/join round trips, stripping
  being idempotent, and the decimal value of `str(n)`.
- `Counting` (`counting.dfy`): `count_parasite_words`.
  - The tokens of `re.findall(r"\b\w+\b", text)` are the maximal runs of word
    characters, scanned left to right. `collections.Counter` is a multiset.
  - The main theorem ties the token count to an independent, token-free
    definition: the number of occurrences of the folded term in the folded
    text with a word boundary on both sides.
  - The code counts single tokens and has no phrase matching. A term list
    may still name a phrase such as "you know", or a term with a hyphen; a
    term containing a non-word character never equals a token, so it always
    counts 0.
- `ModelCaching` (`modelcache.dfy`): `MODEL_CACHE` as a class with a map
  field, and `get_model` as a method that changes it.
  - Ghost logs record every loader call, every handle built and every run
    of the transcription stage. The transcriber is a pure function, so the
    log is what makes a run observable.
  - The invariant says each cached handle was built exactly once, by a
    loader call.
- `Pipeline` (`pipeline.dfy`): `process`.
  - It parses the terms, then runs the early exits in the code's order (no
    video, no usable term, extraction failure, transcription failure).
  - It builds the report from a comprehension of term lines.
  - `sum(counts.values())` is a loop over the keys, proved against a
    specification sum.
  - Each message is the code's own text.

Whisper's loader and transcriber and the audio extractor are parameters
(functions the caller provides). Their results are `Result` / `Outcome`
values.

## Model

| member | source | states |
|---|---|---|
| ModelCaching.ModelCache.constructor | web_app.py:11 | the cache starts empty, with no loader call and nothing built, and satisfies the cache invariant |
| ModelCaching.ModelCache.Lookup | web_app.py:14-17 | the definition of what `get_model` returns for a name: the cached handle when there is one, otherwise the loader's result; `GetModel`'s ensures ties its result to this |
| ModelCaching.ModelCache.GetModel | web_app.py:14-17 | returns the cached handle when the name is cached, and then leaves the cache and the loader log unchanged; otherwise calls the loader exactly once and returns what it gives: on success the handle is added under the name, every other entry is unchanged, and the returned handle equals the cached one; on failure the cache is unchanged; the invariant (each handle built once, by a logged loader call) is kept |
| ModelCaching.GetModelTwice | web_app.py:14-17 | of two successive requests for the same model, once the first succeeds the second returns the same handle, and the loader is called at most once between them |
| Pipeline.TranscriptionOf | web_app.py:32-34 | the definition of the transcription stage's outcome: a failed model lookup passes its error through, otherwise the transcriber's result on the audio; `TranscribeAudio` and `Process` state their results through it |
| Pipeline.TranscribeAudio | web_app.py:30-34 | the transcript is the transcriber applied to the model `get_model` yields; a loader failure comes back as the error; the cache changes exactly as `get_model` changes it, and the run is logged once in the ghost transcription log |
| Counting.RunEnd | web_app.py:40 | the greedy extent of `\w+` from a position: every character up to the end is a word character, and the end is the text's end or a non-word character, so the run cannot be extended |
| Counting.TokensFrom | web_app.py:40 | every token `findall` returns is a non-empty run of word characters |
| Counting.Tokens | web_app.py:40 | the definition of `re.findall(r"\b\w+\b", text)`: the maximal runs of word characters, from left to right; `TokensFromCountMatches` and `TokenCountIsMatches` state how many of them equal a word |
| Counting.CountParasiteWords | web_app.py:37-43 | the keys are exactly the case-folded terms, and each term's value is the number of tokens of the case-folded text equal to the folded term |
| Counting.TokensFromCountMatches | web_app.py:40-41 | from a position outside a word, the number of tokens equal to a single word is the number of its boundary-delimited occurrences |
| Counting.TokenCountIsMatches | web_app.py:40-41 | over the whole text, the count of a single word among the tokens equals its boundary-delimited occurrences |
| Counting.NoMatchAtNonWord | web_app.py:40 | a word never occurs with a boundary where a non-word character stands |
| Counting.MatchAtRunStart | web_app.py:40 | at the start of a run of word characters, a word occurs with boundaries there exactly when it is the whole run |
| Counting.SkipNonMatches | web_app.py:40 | positions where the word cannot occur add nothing to the occurrence count |
| PyStr.IsWordChar | web_app.py:40 | the definition of the word characters `\w` matches (ASCII letters, digits and `_`); `NonWordNeverCounted` and `IsWordLower` state how tokens and folding treat them |
| Counting.NonWordNeverCounted | web_app.py:40-41 | a string that is not a single word (empty, or holding a space or punctuation) is never counted among the tokens |
| Counting.IsWordLower | web_app.py:39 | case folding keeps a single word a single word and a non-word a non-word |
| Counting.CountIsExpected | web_app.py:37-43 | each term has a key; its value is the boundary-delimited, case-insensitive occurrence count when the folded term is one word, and 0 otherwise |
| Counting.MatchesFromPositive | web_app.py:40 | the occurrence count from a position is positive exactly when the word occurs with boundaries at some later position |
| Counting.CountPositiveIff | web_app.py:39-43 | a term's count is non-zero exactly when the term is a single word and occurs in the folded text with a word boundary on both sides |
| Counting.CountIgnoresTextCase | web_app.py:39 | upper-casing the transcript leaves the whole result unchanged |
| Counting.CountIgnoresTermCase | web_app.py:42 | upper-casing every term leaves the keys and every count unchanged |
| Counting.CountAppend | web_app.py:42-43 | adding one more term extends the result by that term's folded key and changes no other entry |
| Counting.UmbrellaTokens | web_app.py:40 | the tokens of "umbrella is nice" are "umbrella", "is", "nice" |
| Counting.UmbrellaExample | web_app.py:37-43 | "um" gets a key and counts 0 in "umbrella is nice" |
| Counting.UmUhUmTokens | web_app.py:40 | the tokens of "um, uh, um" are "um", "uh", "um" |
| Counting.UmUhUmExample | web_app.py:37-43 | "um" counts 2 in "um, uh, um" |
| Counting.PhraseExample | web_app.py:37-43 | the phrase "you know" counts 0 in "you know what i mean, you know", because no token holds a space |
| PyStr.LowerChar | web_app.py:39 | the folded character is never an ASCII upper-case letter; an upper-case letter becomes its lower-case form, every other character is kept, and word characters stay word characters |
| PyStr.UpperChar | web_app.py:39 | the upper-cased character is never an ASCII lower-case letter, and it folds to the same character as the original |
| PyStr.Lower | web_app.py:39 | `lower()` keeps the length and folds each character in place |
| PyStr.LowerAll | web_app.py:42 | the list comprehension of lower-cased terms keeps the length and the order |
| PyStr.LowerOfUpper | web_app.py:39 | folding an upper-cased string gives the same as folding the original |
| PyStr.LowerIdempotent | web_app.py:39 | folding twice is folding once |
| PyStr.IsSpace | web_app.py:50 | the definition of the ASCII whitespace `strip()` removes (codes 9-13 and 28-32); `Strip`, `StripEmptyIff` and `StripFixed` state what stripping does with it |
| PyStr.Strip | web_app.py:50 | `strip()` gives a string that neither starts nor ends with whitespace, and what it cuts off at either end is only whitespace |
| PyStr.StripEmptyIff | web_app.py:50 | a stripped piece is empty exactly when the piece was all whitespace |
| PyStr.StripKeepsOnlyInputChars | web_app.py:50 | every character of a stripped piece occurs in the piece |
| PyStr.StripFixed | web_app.py:50 | stripping a string that has no whitespace at either end changes nothing |
| PyStr.Split | web_app.py:50 | `split(",")` gives at least one piece and no piece contains the separator |
| PyStr.Join | web_app.py:73 | the definition of `sep.join(parts)`: the parts with one separator between each neighbouring pair; `JoinSplit`, `SplitOfJoin` and `ReplyReadsBack` state that it undoes a split and that the reply splits back into its lines |
| PyStr.JoinSplit | web_app.py:50 | joining the pieces of a split with the separator gives the text back |
| PyStr.SplitOfJoin | web_app.py:73 | splitting a join of separator-free strings gives the strings back |
| PyStr.SplitOfOnePiece | web_app.py:50 | a text without the separator splits into itself alone |
| PyStr.SplitConcat | web_app.py:50 | splitting a concatenation around one separator gives the pieces of each side, in order |
| PyStr.JoinConcat | web_app.py:73 | joining two non-empty lists one after the other puts one separator between their joins |
| PyStr.NatToString | web_app.py:69-72 | `str(n)` is non-empty, all decimal digits, with no leading zero unless it is "0" |
| PyStr.NatToStringRoundTrip | web_app.py:69-72 | reading the digits of `str(n)` back gives `n` |
| Pipeline.StripPart | web_app.py:50 | one piece contributes at most one term, which is trimmed and non-empty, and has no comma when the piece had none |
| Pipeline.StripNonEmpty | web_app.py:50 | the comprehension keeps only trimmed, non-empty terms, and comma-free pieces give comma-free terms |
| Pipeline.ParseTerms | web_app.py:50 | every parsed term is non-empty, has no whitespace at either end and contains no comma |
| Pipeline.ParsedTermsAreStripped | web_app.py:50 | stripping a parsed term again changes nothing |
| Pipeline.StripNonEmptyConcat | web_app.py:50 | the comprehension distributes over concatenating piece lists, keeping order |
| Pipeline.ParseTermsOfOnePiece | web_app.py:50 | an input with no comma yields its stripped text, or nothing when that is empty |
| Pipeline.ParseTermsConcat | web_app.py:50 | parsing keeps input order: the terms of two comma-joined inputs are the first's terms followed by the second's |
| Pipeline.ParseTermsAtFirstComma | web_app.py:50 | the terms of an input are the first piece's term, if any, followed by the terms after the first comma |
| Pipeline.OnlySeparatorsAround | web_app.py:50-51 | around its first comma, an input is only commas and whitespace exactly when the first piece is all whitespace and the rest is only commas and whitespace |
| Pipeline.ParseTermsEmptyIff | web_app.py:50-51 | no term survives parsing exactly when the input is nothing but commas and whitespace (so the empty input gives the "at least one parasite word" message) |
| Pipeline.ParseUm | web_app.py:50 | the piece "um" parses to the term "um" |
| Pipeline.ParseSpaceUm | web_app.py:50 | the piece " Um" parses to the term "Um" |
| Pipeline.ParseUmUm | web_app.py:50 | "um, Um" parses to "um" then "Um", with their case kept |
| Pipeline.MapSumRemove | web_app.py:70 | the sum of a map's values may take any key first: it is that key's value plus the sum over the others |
| Pipeline.MapSumAdd | web_app.py:70 | adding a new key adds its value to the sum |
| Pipeline.MapSum | web_app.py:70 | the definition of `sum(counts.values())`, independent of the order of the keys; `MapSumRemove` and `MapSumAdd` state how it changes when one key is taken out or added, and `SumValues` is proved against it |
| Pipeline.SumValues | web_app.py:70 | the loop over the keys returns the sum of the map's values, whatever order it takes them in |
| Pipeline.TermLine | web_app.py:69 | the definition of one term line: the term as typed, ": ", and the count of its folded form, 0 when the counter lacks that key; `ReportShape` and `DuplicateTermCountedOnce` state its properties |
| Pipeline.ReportShape | web_app.py:69-72 | the report has one line per parsed term, plus two: line `k` is term `k` as typed, ": ", and its count; then an empty line; then "Total parasite words: " and the sum over the counter's keys |
| Pipeline.ExpectedReport | web_app.py:69-72 | the definition of the report's lines: one term line per parsed term, an empty line, and the total line over the counter of the transcript; `ReportShape` states their shape and `Process` that the reply joins them |
| Pipeline.DuplicateCountsUnchanged | web_app.py:42-43 | a term whose folded form is already present adds no key and changes no count |
| Pipeline.ReportWithSameCounts | web_app.py:69-72 | when the counts are unchanged, one more term adds just its own line before the blank line, and the total stays the same |
| Pipeline.DuplicateTermCountedOnce | web_app.py:42-72 | a duplicate or case-variant term prints one more line, but it leaves the counts and the total unchanged |
| Pipeline.CaseVariantCounts | web_app.py:42-43 | two terms that fold to the same text, like "um" and "Um", leave a single key |
| Pipeline.CaseVariantsTotalOnce | web_app.py:69-72 | for "um" and "Um", the report has four lines; both term lines print the same count, and the total counts it once |
| Pipeline.TotalIsLineSumWhenDistinct | web_app.py:69-70 | when no two terms fold to the same text, the total is the sum of the counts printed on the term lines |
| Pipeline.ReportLinesHaveNoBreak | web_app.py:69-72 | no report line holds a line break when no term does |
| Pipeline.ReplyReadsBack | web_app.py:73 | when no term holds a line break, splitting the reply on line breaks gives back exactly the `len(terms) + 2` report lines |
| Pipeline.Process | web_app.py:46-73 | the checks run in the code's order, and each early exit has its exact message: no video gives "Please upload a video."; no usable term gives the "at least one parasite word" message; a failed extraction gives its prefix plus the error. None of these touches the model cache, calls the loader or starts the transcription stage. Past them, the transcription stage runs exactly once, on the video's audio; a failed model load or transcription gives its prefix plus the error; otherwise the reply is the report on the transcript, its lines joined by line breaks. The cache changes exactly as `get_model` changes it: a cached model name leaves the cache, the loader log and the built log unchanged; otherwise the loader is called once, and on success the handle is added under the name and logged as built, on failure the cache is unchanged |

## Left out

- `extract_audio_from_video` (web_app.py:20-27): MoviePy/ffmpeg decoding and the WAV file written to disk are foreign I/O. The stage is a function from the video to a pass/fail outcome. A video without an audio track is just one of its failures. The code does not call `clip.close()` on that path; resource release is not modelled.
- `whisper.load_model` and `model.transcribe` (web_app.py:16, web_app.py:33): an opaque speech-to-text engine. Both are function parameters returning a `Result`. Any exception, including a missing `"text"` key, is the error case.
- `tempfile.TemporaryDirectory` and `os.path.join` (web_app.py:54-55): the temporary directory's creation and removal are filesystem effects and are not modelled.
- Process: the transcriber receives the video's identifier as its audio input. The temporary WAV path belongs to the filesystem and is not modelled, so the audio is named by the video it came from.
- The Gradio interface, its default terms and model choices, `demo.launch` (web_app.py:76-98) and all of `app.py`: presentation and server start-up.
- The default `model_name="small"` of `get_model` and `transcribe_audio`: every caller in the core passes the name, so the model always passes it too.
- Concurrency: `MODEL_CACHE` has no locking. The model is sequential, so two simultaneous first requests each loading the same model are not modelled.
- A `words_str` that is not a string: the interface always gives a string, and the code would raise outside any handler.
- Model-name validation: the core accepts any name and hands it to the loader; only the interface's dropdown (web_app.py:84-88) limits the choice, and the interface is not modelled.
- CountParasiteWords: Python's `\w` and `str.lower()` are Unicode-aware. The model uses ASCII letters, digits and `_` as word characters and folds only ASCII letters, so non-ASCII transcripts are not covered.
- Strip: Python's `str.strip()` also removes non-ASCII whitespace such as U+00A0 and U+2028. The model strips only the ASCII whitespace characters `str.isspace()` accepts (codes 9-13 and 28-32).
- Process: the messages quote an exception as `str(e)`. The model takes the message string the failed stage reports and does not model how Python renders exception objects.
