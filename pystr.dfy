/**
 * The Python string builtins the program relies on: `str.lower`, the regex
 * class `\w`, `str.strip`, `str.split(",")`, `"\n".join` and `str(int)`.
 * Characters are restricted to their ASCII meaning.
 */
module PyStr {

  // ---------------------------------------------------------------- characters

  /** The regex class `\w`, restricted to ASCII: letters, digits and underscore. */
  predicate IsWordChar(c: char)
  {
    ('a' <= c <= 'z') || ('A' <= c <= 'Z') || ('0' <= c <= '9') || c == '_'
  }

  /**
   * The characters `str.strip()` removes, restricted to ASCII: tab, line feed,
   * vertical tab, form feed, carriage return (9-13), the four information
   * separators (28-31) and space (32).
   */
  predicate IsSpace(c: char)
  {
    (9 <= c as int <= 13) || (28 <= c as int <= 32)
  }

  /** ASCII case folding of one character, as `str.lower` does on ASCII. */
  function LowerChar(c: char): (r: char)
    ensures !('A' <= r <= 'Z')
    ensures 'A' <= c <= 'Z' ==> r as int == c as int + 32
    ensures !('A' <= c <= 'Z') ==> r == c
    ensures IsWordChar(r) <==> IsWordChar(c)
  {
    if 'A' <= c <= 'Z' then (c as int + 32) as char else c
  }

  /** ASCII upper-casing of one character, as `str.upper` does on ASCII. */
  function UpperChar(c: char): (r: char)
    ensures !('a' <= r <= 'z')
    ensures LowerChar(r) == LowerChar(c)
  {
    if 'a' <= c <= 'z' then (c as int - 32) as char else c
  }

  // ------------------------------------------------------------- case folding

  /** `s.lower()` */
  function Lower(s: string): (r: string)
    ensures |r| == |s|
    ensures forall k :: 0 <= k < |s| ==> r[k] == LowerChar(s[k])
  {
    seq(|s|, k requires 0 <= k < |s| => LowerChar(s[k]))
  }

  /** `s.upper()` */
  function Upper(s: string): (r: string)
    ensures |r| == |s|
    ensures forall k :: 0 <= k < |s| ==> r[k] == UpperChar(s[k])
  {
    seq(|s|, k requires 0 <= k < |s| => UpperChar(s[k]))
  }

  /** `[w.lower() for w in ws]` */
  function LowerAll(ws: seq<string>): (r: seq<string>)
    ensures |r| == |ws|
    ensures forall k :: 0 <= k < |ws| ==> r[k] == Lower(ws[k])
  {
    seq(|ws|, k requires 0 <= k < |ws| => Lower(ws[k]))
  }

  /** `[w.upper() for w in ws]` */
  function UpperAll(ws: seq<string>): (r: seq<string>)
    ensures |r| == |ws|
    ensures forall k :: 0 <= k < |ws| ==> r[k] == Upper(ws[k])
  {
    seq(|ws|, k requires 0 <= k < |ws| => Upper(ws[k]))
  }

  /** Folding forgets the case: an upper-cased string folds to the same text. */
  lemma LowerOfUpper(s: string)
    ensures Lower(Upper(s)) == Lower(s)
  {
    assert forall k :: 0 <= k < |s| ==> Lower(Upper(s))[k] == Lower(s)[k];
  }

  /** Folding is idempotent. */
  lemma LowerIdempotent(s: string)
    ensures Lower(Lower(s)) == Lower(s)
  {
    assert forall k :: 0 <= k < |s| ==> Lower(Lower(s))[k] == Lower(s)[k];
  }

  /** A string folds to the same text as its upper-cased copy, term by term. */
  lemma LowerAllOfUpperAll(ws: seq<string>)
    ensures LowerAll(UpperAll(ws)) == LowerAll(ws)
  {
    forall k | 0 <= k < |ws|
      ensures LowerAll(UpperAll(ws))[k] == LowerAll(ws)[k]
    {
      LowerOfUpper(ws[k]);
    }
  }

  // --------------------------------------------------------------- stripping

  /** Every character of `s` is whitespace. */
  predicate AllSpace(s: string)
  {
    forall k :: 0 <= k < |s| ==> IsSpace(s[k])
  }

  /** The first position at or after `i` that does not hold whitespace (or `|s|`). */
  function SkipSpace(s: string, i: nat): (j: nat)
    requires i <= |s|
    ensures i <= j <= |s|
    ensures forall k :: i <= k < j ==> IsSpace(s[k])
    ensures j == |s| || !IsSpace(s[j])
    decreases |s| - i
  {
    if i == |s| || !IsSpace(s[i]) then i else SkipSpace(s, i + 1)
  }

  /** The end of `s[lo..j]` once its trailing whitespace is dropped. */
  function SkipSpaceBack(s: string, lo: nat, j: nat): (e: nat)
    requires lo <= j <= |s|
    ensures lo <= e <= j
    ensures forall k :: e <= k < j ==> IsSpace(s[k])
    ensures e == lo || !IsSpace(s[e - 1])
    decreases j - lo
  {
    if j == lo || !IsSpace(s[j - 1]) then j else SkipSpaceBack(s, lo, j - 1)
  }

  /** Where the text `s.strip()` keeps begins. */
  function StripStart(s: string): (i: nat)
    ensures i <= |s|
  {
    SkipSpace(s, 0)
  }

  /** Where the text `s.strip()` keeps ends. */
  function StripEnd(s: string): (e: nat)
    ensures StripStart(s) <= e <= |s|
  {
    SkipSpaceBack(s, StripStart(s), |s|)
  }

  /**
   * `s.strip()`: the result neither starts nor ends with whitespace, and it
   * is the part of `s` left once only whitespace is cut from either end.
   */
  function Strip(s: string): (r: string)
    ensures r == [] || (!IsSpace(r[0]) && !IsSpace(r[|r| - 1]))
    ensures r == s[StripStart(s)..StripEnd(s)]
    ensures forall k :: 0 <= k < StripStart(s) ==> IsSpace(s[k])
    ensures forall k :: StripEnd(s) <= k < |s| ==> IsSpace(s[k])
  {
    s[StripStart(s)..StripEnd(s)]
  }

  /** A stripped string is empty exactly when the input was all whitespace. */
  lemma StripEmptyIff(s: string)
    ensures Strip(s) == [] <==> AllSpace(s)
  {
    if Strip(s) != [] {
      assert s[StripStart(s)] == Strip(s)[0];
    }
  }

  /** Every character of the stripped string occurs in the input. */
  lemma StripKeepsOnlyInputChars(s: string, c: char)
    requires c in Strip(s)
    ensures c in s
  {
    var k :| 0 <= k < |Strip(s)| && Strip(s)[k] == c;
    assert s[StripStart(s) + k] == c;
  }

  /** Stripping a string with no whitespace at its ends changes nothing. */
  lemma StripFixed(s: string)
    requires s == [] || (!IsSpace(s[0]) && !IsSpace(s[|s| - 1]))
    ensures Strip(s) == s
  {
    assert StripStart(s) == 0;
    assert s[0..|s|] == s;
  }

  // --------------------------------------------------------- split and join

  /** `sep.join(parts)` for a one-character separator. */
  function Join(parts: seq<string>, sep: char): string
  {
    if parts == [] then []
    else if |parts| == 1 then parts[0]
    else parts[0] + [sep] + Join(parts[1..], sep)
  }

  /** The first position at or after `i` holding `sep` (or `|s|`). */
  function NextSep(s: string, sep: char, i: nat): (j: nat)
    requires i <= |s|
    ensures i <= j <= |s|
    ensures forall k :: i <= k < j ==> s[k] != sep
    ensures j == |s| || s[j] == sep
    decreases |s| - i
  {
    if i == |s| || s[i] == sep then i else NextSep(s, sep, i + 1)
  }

  /**
   * `s.split(sep)` for a one-character separator: the text up to the first
   * separator, then the pieces of the rest; at least one piece, and no piece
   * contains the separator.
   */
  function Split(s: string, sep: char): (parts: seq<string>)
    ensures |parts| > 0
    ensures forall k :: 0 <= k < |parts| ==> sep !in parts[k]
    decreases |s|
  {
    var j := NextSep(s, sep, 0);
    if j == |s| then [s]
    else
      var rest := Split(s[j + 1..], sep);
      var parts := [s[..j]] + rest;
      assert parts[1..] == rest;
      parts
  }

  /** The scan for the separator stops at the first position holding it. */
  lemma {:induction false} NextSepIs(s: string, sep: char, i: nat, e: nat)
    requires i <= e <= |s|
    requires forall k :: i <= k < e ==> s[k] != sep
    requires e == |s| || s[e] == sep
    ensures NextSep(s, sep, i) == e
    decreases e - i
  {
    if i < e {
      NextSepIs(s, sep, i + 1, e);
    }
  }

  /** One step of the scan: the piece up to the first separator, then the pieces of the rest. */
  lemma SplitStep(s: string, sep: char, j: nat)
    requires j < |s| && NextSep(s, sep, 0) == j
    ensures Split(s, sep) == [s[..j]] + Split(s[j + 1..], sep)
  {
  }

  /** A string without the separator is a single piece. */
  lemma SplitOfOnePiece(s: string, sep: char)
    requires sep !in s
    ensures Split(s, sep) == [s]
  {
    assert NextSep(s, sep, 0) == |s|;
  }

  /** The text is the part before `j`, the character at `j`, and the part after. */
  lemma SliceAround(s: string, j: nat)
    requires j < |s|
    ensures s == s[..j] + [s[j]] + s[j + 1..]
  {
  }

  /** The three parts of `a + [c] + b` are found back by slicing at `|a|`. */
  lemma SlicesOfAround(a: string, c: char, b: string)
    ensures (a + [c] + b)[..|a|] == a && (a + [c] + b)[|a|] == c && (a + [c] + b)[|a| + 1..] == b
    ensures forall k :: 0 <= k < |a| ==> (a + [c] + b)[k] == a[k]
  {
  }

  /** Joining a list with at least two strings puts the separator after the first. */
  lemma JoinCons(x: string, rest: seq<string>, sep: char)
    requires |rest| > 0
    ensures Join([x] + rest, sep) == x + [sep] + Join(rest, sep)
  {
    assert ([x] + rest)[1..] == rest;
  }

  /** Joining the pieces gives the text back. */
  lemma {:induction false} JoinSplit(s: string, sep: char)
    ensures Join(Split(s, sep), sep) == s
    decreases |s|
  {
    var j := NextSep(s, sep, 0);
    if j < |s| {
      SplitStep(s, sep, j);
      JoinSplit(s[j + 1..], sep);
      JoinCons(s[..j], Split(s[j + 1..], sep), sep);
      SliceAround(s, j);
    }
  }

  /** Joining separator-free pieces: the first separator comes right after the first piece. */
  lemma NextSepOfJoin(parts: seq<string>, sep: char)
    requires |parts| > 0
    requires forall k :: 0 <= k < |parts| ==> sep !in parts[k]
    ensures |parts| == 1 ==> NextSep(Join(parts, sep), sep, 0) == |Join(parts, sep)|
    ensures |parts| > 1 ==>
              var s, e := Join(parts, sep), |parts[0]|;
              && e < |s| && NextSep(s, sep, 0) == e
              && s[..e] == parts[0] && s[e + 1..] == Join(parts[1..], sep)
  {
    var head := parts[0];
    assert forall k :: 0 <= k < |head| ==> head[k] != sep;
    if |parts| == 1 {
      NextSepIs(head, sep, 0, |head|);
    } else {
      var rest := Join(parts[1..], sep);
      SlicesOfAround(head, sep, rest);
      NextSepIs(head + [sep] + rest, sep, 0, |head|);
    }
  }

  /** Splitting undoes joining pieces that do not contain the separator. */
  lemma {:induction false} SplitOfJoin(parts: seq<string>, sep: char)
    requires |parts| > 0
    requires forall k :: 0 <= k < |parts| ==> sep !in parts[k]
    ensures Split(Join(parts, sep), sep) == parts
    decreases |parts|
  {
    NextSepOfJoin(parts, sep);
    if |parts| > 1 {
      var s := Join(parts, sep);
      SplitStep(s, sep, |parts[0]|);
      SplitOfJoin(parts[1..], sep);
      assert parts == [parts[0]] + parts[1..];
    }
  }

  /** Joining two non-empty lists puts one separator between their joins. */
  lemma {:induction false} JoinConcat(p: seq<string>, q: seq<string>, sep: char)
    requires |p| > 0 && |q| > 0
    ensures Join(p + q, sep) == Join(p, sep) + [sep] + Join(q, sep)
    decreases |p|
  {
    assert (p + q)[0] == p[0];
    assert (p + q)[1..] == p[1..] + q;
    if |p| > 1 {
      JoinConcat(p[1..], q, sep);
    }
  }

  /** Two lists of separator-free strings concatenate to one. */
  lemma SeparatorFreeConcat(p: seq<string>, q: seq<string>, sep: char)
    requires forall k :: 0 <= k < |p| ==> sep !in p[k]
    requires forall k :: 0 <= k < |q| ==> sep !in q[k]
    ensures forall k :: 0 <= k < |p + q| ==> sep !in (p + q)[k]
  {
    forall k | 0 <= k < |p + q| ensures sep !in (p + q)[k] {
      if k < |p| { assert (p + q)[k] == p[k]; } else { assert (p + q)[k] == q[k - |p|]; }
    }
  }

  /** Splitting a concatenation around one separator splits each side. */
  lemma SplitConcat(a: string, b: string, sep: char)
    ensures Split(a + [sep] + b, sep) == Split(a, sep) + Split(b, sep)
  {
    var p, q := Split(a, sep), Split(b, sep);
    assert Join(p + q, sep) == a + [sep] + b by {
      JoinSplit(a, sep);
      JoinSplit(b, sep);
      JoinConcat(p, q, sep);
    }
    SeparatorFreeConcat(p, q, sep);
    SplitOfJoin(p + q, sep);
  }

  // ------------------------------------------------------------ str(int)

  /** The decimal digit character for `d`. */
  function DigitChar(d: nat): (c: char)
    requires d < 10
    ensures '0' <= c <= '9'
  {
    ('0' as int + d) as char
  }

  /** Every character is a decimal digit. */
  predicate AllDigits(s: string)
  {
    forall k :: 0 <= k < |s| ==> '0' <= s[k] <= '9'
  }

  /** The number a string of decimal digits denotes. */
  function DigitsValue(s: string): nat
    requires AllDigits(s)
  {
    if s == [] then 0
    else DigitsValue(s[..|s| - 1]) * 10 + (s[|s| - 1] as int - '0' as int)
  }

  /**
   * `str(n)` for a non-negative integer: a non-empty string of decimal
   * digits without a leading zero (except "0" itself).
   */
  function NatToString(n: nat): (s: string)
    ensures |s| > 0 && AllDigits(s)
    ensures s[0] == '0' ==> n == 0 && s == "0"
    decreases n
  {
    if n < 10 then [DigitChar(n)] else NatToString(n / 10) + [DigitChar(n % 10)]
  }

  /** Reading the decimal text back gives the number printed. */
  lemma {:induction false} NatToStringRoundTrip(n: nat)
    ensures DigitsValue(NatToString(n)) == n
    decreases n
  {
    if n >= 10 {
      var s := NatToString(n);
      assert s[..|s| - 1] == NatToString(n / 10);
      NatToStringRoundTrip(n / 10);
    }
  }
}
