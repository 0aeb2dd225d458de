/**
 * `extract_match_percentage` (app.py): `re.search(r'(\d{1,3})%', text)`, then the
 * captured digits read as an integer and clamped to at most 100; `None` when the
 * pattern occurs nowhere. `\d` is taken to mean the ASCII digits '0'..'9'.
 */
module ScoreExtractor {
  import opened Wrappers
  import opened Decimal

  /** Upper clamp applied to the parsed percentage (`min(..., 100)`). */
  const MaxScore: nat := 100
  /** Repetition bound of `\d{1,3}`. */
  const MaxDigits: nat := 3

  /** The pattern matches `text[i..j+1]`: one to three digits `text[i..j]`, then '%' at `j`. */
  predicate MatchAt(text: string, i: int, j: int) {
    0 <= i < j < |text| && j - i <= MaxDigits && AllDigits(text[i..j]) && text[j] == '%'
  }

  /** No match starts before index `n`. */
  ghost predicate NoMatchBefore(text: string, n: int) {
    forall i, j :: 0 <= i < n && MatchAt(text, i, j) ==> false
  }

  /** The match that `re.search` reports: it starts at `i` and none starts further left. */
  ghost predicate Leftmost(text: string, i: int, j: int) {
    MatchAt(text, i, j) && NoMatchBefore(text, i)
  }

  function Clamp(v: nat): (r: nat)
    ensures r <= MaxScore
    ensures v <= MaxScore ==> r == v
    ensures v > MaxScore ==> r == MaxScore
  {
    if v < MaxScore then v else MaxScore
  }

  /** Greedy `\d{1,3}` at `i`: the number of digits consumed, at most `limit`. */
  function DigitRun(text: string, i: nat, limit: nat): (n: nat)
    requires i <= |text|
    decreases limit
    ensures n <= limit && i + n <= |text|
    ensures AllDigits(text[i..i + n])
    ensures n < limit && i + n < |text| ==> !IsDigit(text[i + n])
  {
    if limit == 0 || i >= |text| || !IsDigit(text[i]) then 0
    else
      var n := 1 + DigitRun(text, i + 1, limit - 1);
      assert text[i..i + n] == [text[i]] + text[i + 1..i + n];
      n
  }

  /**
   * Backtracking after a greedy run of `n` digits at `i`: try '%' right after
   * `n` digits, then after `n - 1`, ..., down to one digit.
   */
  function Backtrack(text: string, i: nat, n: nat): (r: Option<nat>)
    requires i + n <= |text| && n <= MaxDigits && AllDigits(text[i..i + n])
    decreases n
    ensures r.Some? ==> MatchAt(text, i, r.value)
    ensures r.None? ==> forall j :: i < j <= i + n && j < |text| ==> text[j] != '%'
  {
    if n == 0 then None
    else if i + n < |text| && text[i + n] == '%' then Some(i + n)
    else
      assert text[i..i + (n - 1)] == text[i..i + n][..n - 1];
      Backtrack(text, i, n - 1)
  }

  /** The end of the match that starts at `i`, if the pattern matches there. */
  function MatchEnd(text: string, i: nat): (r: Option<nat>)
    requires i <= |text|
    ensures r.Some? ==> MatchAt(text, i, r.value)
    ensures r.None? ==> forall j :: !MatchAt(text, i, j)
  {
    var n := DigitRun(text, i, MaxDigits);
    var r := Backtrack(text, i, n);
    assert r.None? ==> forall j :: !MatchAt(text, i, j) by {
      forall j | i + n < j {
        NoMatchPastRun(text, i, j);
      }
    }
    r
  }

  /** A match cannot reach past the greedy digit run that starts it. */
  lemma NoMatchPastRun(text: string, i: nat, j: int)
    requires i <= |text| && i + DigitRun(text, i, MaxDigits) < j
    ensures !MatchAt(text, i, j)
  {
    var n := DigitRun(text, i, MaxDigits);
    if j - i <= MaxDigits && j <= |text| {
      assert !IsDigit(text[i..j][n]);
    }
  }

  /** The leftmost match at index `from` or later, scanning start positions left to right. */
  function Search(text: string, from: nat): (r: Option<(nat, nat)>)
    decreases |text| - from
    ensures r.Some? ==> from <= r.value.0 && MatchAt(text, r.value.0, r.value.1)
    ensures r.Some? ==> forall i, j :: from <= i < r.value.0 ==> !MatchAt(text, i, j)
    ensures r.None? ==> forall i, j :: from <= i ==> !MatchAt(text, i, j)
  {
    if from >= |text| then None
    else
      match MatchEnd(text, from)
      case Some(j) => Some((from, j))
      case None => Search(text, from + 1)
  }

  /**
   * `extract_match_percentage`: absent exactly when the pattern occurs nowhere in
   * `text`, and otherwise a score between 0 and 100.
   */
  function ExtractMatchPercentage(text: string): (r: Option<int>)
    ensures r.None? <==> forall i, j :: !MatchAt(text, i, j)
    ensures r.Some? ==> 0 <= r.value <= MaxScore
  {
    match Search(text, 0)
    case None => None
    case Some((i, j)) => Some(Clamp(Value(text[i..j])))
  }

  /** For a given start there is at most one end, because '%' is not a digit. */
  lemma MatchEndUnique(text: string, i: int, j: int, j': int)
    requires MatchAt(text, i, j) && MatchAt(text, i, j')
    ensures j == j'
  {
  }

  /** The captured digits never exceed 999, so the clamp is the only bound needed. */
  lemma RawValueAtMost999(text: string, i: int, j: int)
    requires MatchAt(text, i, j)
    ensures Value(text[i..j]) <= 999
  {
    assert Pow10(|text[i..j]|) <= Pow10(MaxDigits);
  }

  /**
   * The leftmost match decides the result: its digits read in base 10, unchanged
   * when at most 100 and 100 otherwise.
   */
  lemma LeftmostMatchDecides(text: string, i: int, j: int)
    requires Leftmost(text, i, j)
    ensures Value(text[i..j]) <= MaxScore ==> ExtractMatchPercentage(text) == Some(Value(text[i..j]))
    ensures Value(text[i..j]) > MaxScore ==> ExtractMatchPercentage(text) == Some(MaxScore)
  {
    var r := Search(text, 0);
    assert r.Some?;
    var (i', j') := r.value;
    assert i' == i;
    MatchEndUnique(text, i, j, j');
  }

  /** Conversely, every present result comes from the leftmost match. */
  lemma ResultComesFromLeftmost(text: string, v: int)
    requires ExtractMatchPercentage(text) == Some(v)
    ensures exists i, j :: Leftmost(text, i, j) && v == Clamp(Value(text[i..j]))
  {
    var (i, j) := Search(text, 0).value;
    assert Leftmost(text, i, j);
  }

  /** A later percentage never changes the result once an earlier one is found. */
  lemma FirstMatchWins(text: string, i: int, j: int, i2: int, j2: int)
    requires Leftmost(text, i, j) && MatchAt(text, i2, j2) && i < i2
    requires Value(text[i..j]) != Value(text[i2..j2]) && Value(text[i..j]) <= MaxScore
    ensures ExtractMatchPercentage(text) != Some(Value(text[i2..j2]))
  {
    LeftmostMatchDecides(text, i, j);
  }

  /** Text without any digit never yields a score. */
  lemma NoDigitNoScore(text: string)
    requires forall c :: c in text ==> !IsDigit(c)
    ensures ExtractMatchPercentage(text) == None
  {
  }

  /** Text without a '%' never yields a score. */
  lemma NoPercentNoScore(text: string)
    requires '%' !in text
    ensures ExtractMatchPercentage(text) == None
  {
  }

  /** A match starts on a digit. */
  lemma NoMatchAtNonDigit(text: string, i: int, j: int)
    requires 0 <= i < |text| && !IsDigit(text[i])
    ensures !MatchAt(text, i, j)
  {
    if i < j <= |text| {
      assert text[i..j][0] == text[i];
    }
  }

  /** Shifting a match past a prefix. */
  lemma ShiftMatch(p: string, rest: string, i: int, j: int)
    requires 0 <= i
    ensures MatchAt(p + rest, i + |p|, j + |p|) <==> MatchAt(rest, i, j)
    ensures MatchAt(rest, i, j) ==> (p + rest)[i + |p|..j + |p|] == rest[i..j]
  {
    if 0 <= i <= j <= |rest| {
      assert (p + rest)[i + |p|..j + |p|] == rest[i..j];
    }
  }

  /** No match starts inside a prefix that holds no digit. */
  lemma DigitFreePrefixNoMatch(p: string, rest: string)
    requires forall c :: c in p ==> !IsDigit(c)
    ensures NoMatchBefore(p + rest, |p|)
  {
    forall i, j | 0 <= i < |p| ensures !MatchAt(p + rest, i, j) {
      assert (p + rest)[i] == p[i];
      NoMatchAtNonDigit(p + rest, i, j);
    }
  }

  /** Matches at or after the prefix are the matches of `rest`, shifted. */
  lemma NoMatchShifted(p: string, rest: string, n: int)
    requires 0 <= n
    requires forall i, j :: 0 <= i < n ==> !MatchAt(rest, i, j)
    ensures forall i, j :: |p| <= i < n + |p| ==> !MatchAt(p + rest, i, j)
  {
    forall i, j | |p| <= i < n + |p| ensures !MatchAt(p + rest, i, j) {
      ShiftMatch(p, rest, i - |p|, j - |p|);
    }
  }

  /** With no score in `rest`, a digit-free prefix adds none. */
  lemma DigitFreePrefixKeepsNone(p: string, rest: string)
    requires forall c :: c in p ==> !IsDigit(c)
    requires ExtractMatchPercentage(rest) == None
    ensures ExtractMatchPercentage(p + rest) == None
  {
    DigitFreePrefixNoMatch(p, rest);
    NoMatchShifted(p, rest, |rest|);
    assert forall i, j :: !MatchAt(p + rest, i, j);
  }

  /** The leftmost match of `rest`, shifted past a digit-free prefix, is the leftmost one of the whole. */
  lemma DigitFreePrefixKeepsLeftmost(p: string, rest: string, i: int, j: int)
    requires forall c :: c in p ==> !IsDigit(c)
    requires Leftmost(rest, i, j)
    ensures Leftmost(p + rest, i + |p|, j + |p|)
    ensures (p + rest)[i + |p|..j + |p|] == rest[i..j]
  {
    DigitFreePrefixNoMatch(p, rest);
    ShiftMatch(p, rest, i, j);
    NoMatchShifted(p, rest, i);
  }

  /**
   * Prose before the first digit does not affect the score: the result on
   * `p + rest` is the result on `rest` when `p` holds no digit.
   */
  lemma DigitFreePrefixIgnored(p: string, rest: string)
    requires forall c :: c in p ==> !IsDigit(c)
    ensures ExtractMatchPercentage(p + rest) == ExtractMatchPercentage(rest)
  {
    var r := Search(rest, 0);
    if r.None? {
      DigitFreePrefixKeepsNone(p, rest);
    } else {
      var (i, j) := r.value;
      assert Leftmost(rest, i, j);
      DigitFreePrefixKeepsLeftmost(p, rest, i, j);
      LeftmostMatchDecides(p + rest, i + |p|, j + |p|);
    }
  }
}
