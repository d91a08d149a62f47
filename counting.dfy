/**
 * The parasite-word counter: the transcript is case-folded, split into the
 * tokens `re.findall(r"\b\w+\b", text)` returns, the tokens are counted
 * (`collections.Counter`), and each case-folded term is looked up.
 */
module Counting {
  import opened PyStr

  /** A token: a non-empty run of word characters. */
  predicate IsWord(t: string)
  {
    |t| > 0 && forall k :: 0 <= k < |t| ==> IsWordChar(t[k])
  }

  /** The end of the run of word characters that starts at `i`. */
  function RunEnd(s: string, i: nat): (j: nat)
    requires i <= |s|
    ensures i <= j <= |s|
    ensures forall k :: i <= k < j ==> IsWordChar(s[k])
    ensures j == |s| || !IsWordChar(s[j])
    decreases |s| - i
  {
    if i == |s| || !IsWordChar(s[i]) then i else RunEnd(s, i + 1)
  }

  /** Position `i` does not lie strictly inside a run of word characters. */
  predicate OutsideWord(s: string, i: nat)
    requires i <= |s|
  {
    i == 0 || i == |s| || !IsWordChar(s[i - 1]) || !IsWordChar(s[i])
  }

  /**
   * The matches of `\b\w+\b` in `s[i..]`, scanning left to right as
   * `re.findall` does; every match is a maximal run of word characters.
   */
  function TokensFrom(s: string, i: nat): (ts: seq<string>)
    requires i <= |s|
    ensures forall k :: 0 <= k < |ts| ==> IsWord(ts[k])
    decreases |s| - i
  {
    if i == |s| then []
    else if !IsWordChar(s[i]) then TokensFrom(s, i + 1)
    else
      var j := RunEnd(s, i);
      [s[i..j]] + TokensFrom(s, j)
  }

  /** `re.findall(r"\b\w+\b", s)` */
  function Tokens(s: string): seq<string>
  {
    TokensFrom(s, 0)
  }

  /**
   * The term `w` occurs at `p` with a word boundary on both sides: what the
   * pattern `\bw\b` matches when `w` starts and ends with a word character.
   */
  predicate MatchAt(s: string, w: string, p: nat)
  {
    && p + |w| <= |s|
    && s[p..p + |w|] == w
    && (p == 0 || !IsWordChar(s[p - 1]))
    && (p + |w| == |s| || !IsWordChar(s[p + |w|]))
  }

  /** The number of boundary-delimited occurrences of `w` that start at `i` or later. */
  function MatchesFrom(s: string, w: string, i: nat): nat
    decreases |s| - i
  {
    if i >= |s| then 0
    else (if MatchAt(s, w, i) then 1 else 0) + MatchesFrom(s, w, i + 1)
  }

  /** The number of boundary-delimited occurrences of `w` in `s`. */
  function Matches(s: string, w: string): nat
  {
    MatchesFrom(s, w, 0)
  }

  /**
   * The count the program reports for a term `w`, stated without tokens:
   * the boundary-delimited occurrences of the folded term in the folded
   * text when the term is a single word, and 0 otherwise.
   */
  function ExpectedCount(text: string, w: string): nat
  {
    if IsWord(Lower(w)) then Matches(Lower(text), Lower(w)) else 0
  }

  /**
   * `count_parasite_words(text, terms)`: one key per folded term, mapped to
   * the number of tokens of the folded text equal to it.
   */
  function CountParasiteWords(text: string, terms: seq<string>): (counts: map<string, nat>)
    ensures counts.Keys == set w | w in terms :: Lower(w)
    ensures forall w :: w in terms ==> counts[Lower(w)] == multiset(Tokens(Lower(text)))[Lower(w)]
  {
    var counter := multiset(Tokens(Lower(text)));
    var folded := LowerAll(terms);
    assert forall w :: w in terms ==> Lower(w) in folded by {
      forall w | w in terms ensures Lower(w) in folded {
        var k :| 0 <= k < |terms| && terms[k] == w;
        assert folded[k] == Lower(w);
      }
    }
    map w | w in folded :: counter[w]
  }

  // ------------------------------------------------------------ the proofs

  /** A term made of word characters never matches where a non-word character stands. */
  lemma NoMatchAtNonWord(s: string, w: string, i: nat)
    requires IsWord(w) && i < |s| && !IsWordChar(s[i])
    ensures !MatchAt(s, w, i)
  {
  }

  /** At the start of a run, the term matches exactly when it is the whole run. */
  lemma MatchAtRunStart(s: string, w: string, i: nat)
    requires IsWord(w) && i < |s| && IsWordChar(s[i])
    requires i == 0 || !IsWordChar(s[i - 1])
    ensures MatchAt(s, w, i) <==> s[i..RunEnd(s, i)] == w
  {
    var j := RunEnd(s, i);
  }

  /** Skipping positions where the term cannot match leaves the count unchanged. */
  lemma {:induction false} SkipNonMatches(s: string, w: string, a: nat, b: nat)
    requires a <= b <= |s|
    requires forall p :: a <= p < b ==> !MatchAt(s, w, p)
    ensures MatchesFrom(s, w, a) == MatchesFrom(s, w, b)
    decreases b - a
  {
    if a < b {
      SkipNonMatches(s, w, a + 1, b);
    }
  }

  /**
   * Counting the tokens of `s[i..]` equal to a single word `w` is the same
   * as counting the boundary-delimited occurrences of `w` there.
   */
  lemma {:induction false} TokensFromCountMatches(s: string, w: string, i: nat)
    requires i <= |s| && OutsideWord(s, i) && IsWord(w)
    ensures multiset(TokensFrom(s, i))[w] == MatchesFrom(s, w, i)
    decreases |s| - i
  {
    if i < |s| {
      if !IsWordChar(s[i]) {
        NoMatchAtNonWord(s, w, i);
        TokensFromCountMatches(s, w, i + 1);
      } else {
        var j := RunEnd(s, i);
        MatchAtRunStart(s, w, i);
        forall p | i + 1 <= p < j ensures !MatchAt(s, w, p) {
          assert IsWordChar(s[p - 1]);
        }
        SkipNonMatches(s, w, i + 1, j);
        TokensFromCountMatches(s, w, j);
        assert TokensFrom(s, i) == [s[i..j]] + TokensFrom(s, j);
      }
    }
  }

  /** The tokens of `s` equal to a single word `w` are its boundary-delimited occurrences. */
  lemma TokenCountIsMatches(s: string, w: string)
    requires IsWord(w)
    ensures multiset(Tokens(s))[w] == Matches(s, w)
  {
    TokensFromCountMatches(s, w, 0);
  }

  /** No token is anything but a single word, so other strings are never counted. */
  lemma NonWordNeverCounted(s: string, w: string)
    requires !IsWord(w)
    ensures multiset(Tokens(s))[w] == 0
  {
  }

  /** Case folding keeps word characters word characters. */
  lemma IsWordLower(w: string)
    ensures IsWord(Lower(w)) <==> IsWord(w)
  {
    if IsWord(w) {
      assert forall k :: 0 <= k < |w| ==> IsWordChar(Lower(w)[k]);
    }
    if IsWord(Lower(w)) {
      assert forall k :: 0 <= k < |w| ==> IsWordChar(LowerChar(w[k]));
    }
  }

  /**
   * Each term is reported under its folded form, with the number of
   * whole-word, case-insensitive occurrences when it is a single word, and 0
   * when it contains any non-word character (a phrase such as "you know").
   */
  lemma CountIsExpected(text: string, terms: seq<string>, w: string)
    requires w in terms
    ensures Lower(w) in CountParasiteWords(text, terms)
    ensures CountParasiteWords(text, terms)[Lower(w)] == ExpectedCount(text, w)
  {
    if IsWord(Lower(w)) {
      TokenCountIsMatches(Lower(text), Lower(w));
    } else {
      NonWordNeverCounted(Lower(text), Lower(w));
    }
  }

  /** There are boundary-delimited occurrences at or after `i` exactly when some position matches. */
  lemma {:induction false} MatchesFromPositive(s: string, w: string, i: nat)
    ensures MatchesFrom(s, w, i) > 0 <==> exists p :: i <= p < |s| && MatchAt(s, w, p)
    decreases |s| - i
  {
    if i < |s| {
      MatchesFromPositive(s, w, i + 1);
      if MatchesFrom(s, w, i + 1) > 0 {
        var p :| i + 1 <= p < |s| && MatchAt(s, w, p);
      }
    }
  }

  /**
   * A term gets a non-zero count exactly when it is a single word and occurs
   * in the folded text with a word boundary on both sides; so "um" counts 0
   * when it only appears inside "umbrella".
   */
  lemma CountPositiveIff(text: string, terms: seq<string>, w: string)
    requires w in terms
    ensures CountParasiteWords(text, terms)[Lower(w)] > 0 <==>
            IsWord(w) && exists p :: MatchAt(Lower(text), Lower(w), p)
  {
    CountIsExpected(text, terms, w);
    IsWordLower(w);
    MatchesFromPositive(Lower(text), Lower(w), 0);
    if exists p :: MatchAt(Lower(text), Lower(w), p) {
      var p: nat :| MatchAt(Lower(text), Lower(w), p);
      if IsWord(w) {
        assert p < |Lower(text)|;
      }
    }
  }

  /** Upper-casing the transcript leaves every count unchanged. */
  lemma CountIgnoresTextCase(text: string, terms: seq<string>)
    ensures CountParasiteWords(Upper(text), terms) == CountParasiteWords(text, terms)
  {
    LowerOfUpper(text);
  }

  /** Upper-casing the terms leaves the keys and every count unchanged. */
  lemma CountIgnoresTermCase(text: string, terms: seq<string>)
    ensures CountParasiteWords(text, UpperAll(terms)) == CountParasiteWords(text, terms)
  {
    LowerAllOfUpperAll(terms);
  }

  /** Adding a term extends the counts by its folded key and nothing else. */
  lemma CountAppend(text: string, terms: seq<string>, x: string)
    ensures CountParasiteWords(text, terms + [x]) ==
            CountParasiteWords(text, terms)[Lower(x) := CountParasiteWords(text, [x])[Lower(x)]]
  {
    var m1 := CountParasiteWords(text, terms + [x]);
    var m0 := CountParasiteWords(text, terms)[Lower(x) := CountParasiteWords(text, [x])[Lower(x)]];
    assert x in terms + [x];
    forall w | w in terms ensures w in terms + [x] {
      var k :| 0 <= k < |terms| && terms[k] == w;
      assert (terms + [x])[k] == w;
    }
    assert m1.Keys == m0.Keys;
  }

  /** The run starting at `i` ends at `j` when `s[i..j]` is word characters followed by a non-word one. */
  lemma RunEndIs(s: string, i: nat, j: nat)
    requires i <= j <= |s|
    requires forall k :: i <= k < j ==> IsWordChar(s[k])
    requires j == |s| || !IsWordChar(s[j])
    ensures RunEnd(s, i) == j
  {
  }

  /** At the start of a run of word characters, the run is the next token. */
  lemma TokensFromAtRun(s: string, i: nat)
    requires i < |s| && IsWordChar(s[i])
    ensures TokensFrom(s, i) == [s[i..RunEnd(s, i)]] + TokensFrom(s, RunEnd(s, i))
  {
  }

  /** A non-word character is skipped. */
  lemma TokensFromSkip(s: string, i: nat)
    requires i < |s| && !IsWordChar(s[i])
    ensures TokensFrom(s, i) == TokensFrom(s, i + 1)
  {
  }

  /** The runs of word characters in the concrete transcript "umbrella is nice". */
  lemma UmbrellaRuns(s: string)
    requires s == "umbrella is nice"
    ensures RunEnd(s, 0) == 8 && RunEnd(s, 9) == 11 && RunEnd(s, 12) == 16
    ensures !IsWordChar(s[8]) && !IsWordChar(s[11])
    ensures IsWordChar(s[0]) && IsWordChar(s[9]) && IsWordChar(s[12])
    ensures s[0..8] == "umbrella" && s[9..11] == "is" && s[12..16] == "nice"
  {
    assert s[8] == ' ' && s[11] == ' ';
    RunEndIs(s, 0, 8);
    RunEndIs(s, 9, 11);
    RunEndIs(s, 12, 16);
  }

  /** The tokens of the concrete transcript "umbrella is nice". */
  lemma UmbrellaTokens(s: string)
    requires s == "umbrella is nice"
    ensures Tokens(s) == ["umbrella", "is", "nice"]
  {
    UmbrellaRuns(s);
    TokensFromAtRun(s, 12);
    TokensFromSkip(s, 11);
    TokensFromAtRun(s, 9);
    TokensFromSkip(s, 8);
    TokensFromAtRun(s, 0);
  }

  /** A lower-case term on its own is counted under itself, as its tokens in the folded text. */
  lemma SingleTermCount(text: string, w: string)
    requires Lower(w) == w
    ensures w in CountParasiteWords(text, [w])
    ensures CountParasiteWords(text, [w])[w] == multiset(Tokens(Lower(text)))[w]
  {
    assert w in [w];
  }

  /** The term "um" is already lower-case. */
  lemma LowerUm()
    ensures Lower("um") == "um"
  {
  }

  /** The concrete transcript "umbrella is nice" is already lower-case. */
  lemma UmbrellaLower(s: string)
    requires s == "umbrella is nice"
    ensures Lower(s) == s
  {
  }

  /** The concrete case: "um" inside "umbrella" is not counted. */
  lemma UmbrellaExample()
    ensures "um" in CountParasiteWords("umbrella is nice", ["um"])
    ensures CountParasiteWords("umbrella is nice", ["um"])["um"] == 0
  {
    var s := "umbrella is nice";
    LowerUm();
    SingleTermCount(s, "um");
    UmbrellaLower(s);
    UmbrellaTokens(s);
    assert multiset(["umbrella", "is", "nice"])["um"] == 0;
  }

  /** The runs of word characters in the concrete transcript "um, uh, um". */
  lemma UmUhUmRuns(s: string)
    requires s == "um, uh, um"
    ensures RunEnd(s, 0) == 2 && RunEnd(s, 4) == 6 && RunEnd(s, 8) == 10
    ensures !IsWordChar(s[2]) && !IsWordChar(s[3]) && !IsWordChar(s[6]) && !IsWordChar(s[7])
    ensures IsWordChar(s[0]) && IsWordChar(s[4]) && IsWordChar(s[8])
    ensures s[0..2] == "um" && s[4..6] == "uh" && s[8..10] == "um"
  {
    assert s[2] == ',' && s[3] == ' ' && s[6] == ',' && s[7] == ' ';
    RunEndIs(s, 0, 2);
    RunEndIs(s, 4, 6);
    RunEndIs(s, 8, 10);
  }

  /** The tokens of the concrete transcript "um, uh, um". */
  lemma UmUhUmTokens(s: string)
    requires s == "um, uh, um"
    ensures Tokens(s) == ["um", "uh", "um"]
  {
    UmUhUmRuns(s);
    TokensFromAtRun(s, 8);
    TokensFromSkip(s, 7);
    TokensFromSkip(s, 6);
    TokensFromAtRun(s, 4);
    TokensFromSkip(s, 3);
    TokensFromSkip(s, 2);
    TokensFromAtRun(s, 0);
  }

  /** The concrete transcript "um, uh, um" is already lower-case. */
  lemma UmUhUmLower(s: string)
    requires s == "um, uh, um"
    ensures Lower(s) == s
  {
  }

  /** The token list of "um, uh, um" holds "um" twice. */
  lemma UmTwiceInTokens()
    ensures multiset(["um", "uh", "um"])["um"] == 2
  {
    assert ["um", "uh", "um"] == ["um"] + ["uh"] + ["um"];
  }

  /** The concrete case: "um" counts 2 in "um, uh, um". */
  lemma UmUhUmExample()
    ensures "um" in CountParasiteWords("um, uh, um", ["um"])
    ensures CountParasiteWords("um, uh, um", ["um"])["um"] == 2
  {
    var s := "um, uh, um";
    LowerUm();
    SingleTermCount(s, "um");
    UmUhUmLower(s);
    UmUhUmTokens(s);
    UmTwiceInTokens();
  }

  /**
   * The concrete case: the phrase "you know" counts 0 even though the
   * transcript says it twice, because no single token holds a space.
   */
  lemma PhraseExample()
    ensures "you know" in CountParasiteWords("you know what i mean, you know", ["you know"])
    ensures CountParasiteWords("you know what i mean, you know", ["you know"])["you know"] == 0
  {
    var w := "you know";
    assert Lower(w) == w;
    assert w in [w];
    assert !IsWordChar(w[3]);
    CountIsExpected("you know what i mean, you know", [w], w);
  }
}
