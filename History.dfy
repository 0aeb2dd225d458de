/**
 * The `history` table of app.py: rows `(username, feature, score, details)`
 * with no key, only ever appended to, and the per-user query over it.
 */
module History {
  import opened Wrappers
  import opened Decimal
  import ScoreExtractor

  /** One row of the `history` table; `score` is stored as text. */
  datatype Row = Row(username: string, feature: string, score: string, details: string)

  /** One row as `get_history` returns it: `(feature, score, details)`. */
  datatype Entry = Entry(feature: string, score: string, details: string)

  /**
   * What callers hand to `save_history` as its score: an integer, Python's
   * `None` (no percentage found) or a literal string such as "N/A".
   */
  datatype ScoreArg = IntScore(n: int) | NoneScore | TextScore(s: string)

  /** Python's `str(score)` on the three kinds of score argument. */
  function ToStr(s: ScoreArg): (r: string)
    ensures s.NoneScore? ==> r == "None"
    ensures s.TextScore? ==> r == s.s
    ensures s.IntScore? && s.n >= 0 ==> |r| >= 1 && AllDigits(r) && Value(r) == s.n && (|r| > 1 ==> r[0] != '0')
    ensures s.IntScore? && s.n < 0 ==> |r| >= 2 && r[0] == '-' && AllDigits(r[1..]) && Value(r[1..]) == -s.n
    ensures s.IntScore? && s.n < 0 && |r| > 2 ==> r[1] != '0'
  {
    match s
    case IntScore(n) => FromInt(n)
    case NoneScore => "None"
    case TextScore(t) => t
  }

  /** The score argument that the analyzer and the ATS checker pass on. */
  function ScoreOf(r: Option<int>): (a: ScoreArg)
    ensures !a.TextScore?
    ensures a.IntScore? <==> r.Some?
    ensures r.Some? ==> a.n == r.value
  {
    match r
    case Some(n) => IntScore(n)
    case None => NoneScore
  }

  function Project(row: Row): Entry {
    Entry(row.feature, row.score, row.details)
  }

  /** `SELECT feature, score, details FROM history WHERE username = u`, in insertion order. */
  function HistoryFor(rows: seq<Row>, u: string): (r: seq<Entry>)
    ensures |r| <= |rows|
  {
    if rows == [] then []
    else
      var last := rows[|rows| - 1];
      HistoryFor(rows[..|rows| - 1], u) + (if last.username == u then [Project(last)] else [])
  }

  /** The query distributes over concatenation: earlier rows come first. */
  lemma {:induction false} HistoryForConcat(a: seq<Row>, b: seq<Row>, u: string)
    ensures HistoryFor(a + b, u) == HistoryFor(a, u) + HistoryFor(b, u)
    decreases |b|
  {
    if b == [] {
      assert a + b == a;
    } else {
      var b' := b[..|b| - 1];
      assert (a + b)[..|a + b| - 1] == a + b';
      HistoryForConcat(a, b', u);
    }
  }

  /** Appending a row adds its entry at the end for its own user and nothing for others. */
  lemma HistoryForAppend(rows: seq<Row>, row: Row, u: string)
    ensures row.username == u ==> HistoryFor(rows + [row], u) == HistoryFor(rows, u) + [Project(row)]
    ensures row.username != u ==> HistoryFor(rows + [row], u) == HistoryFor(rows, u)
  {
    assert (rows + [row])[..|rows|] == rows;
  }

  /** An entry is returned exactly when some row of that user projects to it. */
  lemma {:induction false} HistoryForMembers(rows: seq<Row>, u: string, e: Entry)
    ensures e in HistoryFor(rows, u) <==> exists k :: 0 <= k < |rows| && rows[k].username == u && Project(rows[k]) == e
  {
    if rows != [] {
      var init := rows[..|rows| - 1];
      HistoryForMembers(init, u, e);
      if e in HistoryFor(init, u) {
        var k :| 0 <= k < |init| && init[k].username == u && Project(init[k]) == e;
        assert rows[k] == init[k];
      }
      if exists k :: 0 <= k < |rows| && rows[k].username == u && Project(rows[k]) == e {
        var k :| 0 <= k < |rows| && rows[k].username == u && Project(rows[k]) == e;
        if k < |init| {
          assert init[k] == rows[k];
        }
      }
    }
  }

  /** The query is empty exactly when no row belongs to the user. */
  lemma {:induction false} HistoryForEmpty(rows: seq<Row>, u: string)
    ensures HistoryFor(rows, u) == [] <==> forall k :: 0 <= k < |rows| ==> rows[k].username != u
  {
    if rows != [] {
      var init := rows[..|rows| - 1];
      HistoryForEmpty(init, u);
      forall k | 0 <= k < |init| ensures init[k] == rows[k] { }
    }
  }

  /**
   * The score text stored for an analysis: "None" when no percentage was found,
   * and otherwise the canonical decimal spelling (`str(v)`, no leading zero) of
   * a value `v` between 0 and 100.
   */
  lemma StoredScoreText(analysis: string)
    ensures var stored := ToStr(ScoreOf(ScoreExtractor.ExtractMatchPercentage(analysis)));
      match ScoreExtractor.ExtractMatchPercentage(analysis)
      case None => stored == "None"
      case Some(v) =>
        && |stored| >= 1 && AllDigits(stored) && 0 <= Value(stored) == v <= 100
        && (|stored| > 1 ==> stored[0] != '0')
        && stored != "None"
  {
    match ScoreExtractor.ExtractMatchPercentage(analysis)
    case None =>
    case Some(v) =>
      assert FromNat(v)[0] != 'N';
  }

  /** Distinct integer scores are stored as distinct strings. */
  lemma IntScoresStoredDistinctly(m: int, n: int)
    requires ToStr(IntScore(m)) == ToStr(IntScore(n))
    ensures m == n
  {
    if m < 0 && n < 0 {
      assert FromNat(-m) == ToStr(IntScore(m))[1..];
      assert FromNat(-n) == ToStr(IntScore(n))[1..];
      FromNatInjective(-m, -n);
    } else if m >= 0 && n >= 0 {
      FromNatInjective(m, n);
    }
  }
}
