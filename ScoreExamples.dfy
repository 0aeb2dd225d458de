/**
 * Worked inputs for `extract_match_percentage`, each derived from the general
 * lemmas of `ScoreExtractor`. The literal under test is passed as a parameter
 * `t` fixed by `requires t == "..."` rather than written inline, because the
 * solver unfolds the recursive scan on an inline string literal without bound
 * and runs out of resource; prose in front of the first digit is split off and
 * discharged by `DigitFreePrefixIgnored`.
 */
module ScoreExamples {
  import opened Wrappers
  import opened Decimal
  import opened ScoreExtractor

  lemma ZeroKept(t: string)
    requires t == "0% match, try again"
    ensures ExtractMatchPercentage(t) == Some(0)
  {
    assert Search(t, 0) == Some((0, 1));
    assert t[0..1] == "0" && "0"[..0] == "";
  }

  lemma EightyTwoKept(t: string)
    requires t == "82%"
    ensures ExtractMatchPercentage("Match Score: " + t) == Some(82)
  {
    assert ExtractMatchPercentage(t) == Some(82) by {
      assert Search(t, 0) == Some((0, 2));
      assert t[0..2] == "82" && "82"[..1] == "8" && "8"[..0] == "";
    }
    DigitFreePrefixIgnored("Match Score: ", t);
  }

  lemma LeadingZerosDropped(t: string)
    requires t == "007%"
    ensures ExtractMatchPercentage(t) == Some(7)
  {
    assert Search(t, 0) == Some((0, 3));
    assert t[0..3] == "007" && "007"[..2] == "00" && "00"[..1] == "0" && "0"[..0] == "";
  }

  lemma OverHundredClamped(t: string)
    requires t == "150% alignment"
    ensures ExtractMatchPercentage("This exceeds expectations at " + t) == Some(100)
  {
    assert ExtractMatchPercentage(t) == Some(100) by {
      assert Search(t, 0) == Some((0, 3));
      assert t[0..3] == "150" && "150"[..2] == "15" && "15"[..1] == "1" && "1"[..0] == "";
    }
    DigitFreePrefixIgnored("This exceeds expectations at ", t);
  }

  /** Only the first percentage counts. */
  lemma FirstPercentageWins(t: string)
    requires t == "60%. Overall: 91%."
    ensures ExtractMatchPercentage("Skills: " + t) == Some(60)
  {
    assert ExtractMatchPercentage(t) == Some(60) by {
      assert MatchEnd(t, 0) == Some(2);
      assert Search(t, 0) == Some((0, 2));
      assert t[0..2] == "60" && "60"[..1] == "6" && "6"[..0] == "";
    }
    DigitFreePrefixIgnored("Skills: ", t);
  }

  /** Four digits before '%' do not fail the search: the match starts one digit later. */
  lemma FourDigitsMatchFromSecond(t: string)
    requires t == "1234%"
    ensures Leftmost(t, 1, 4)
    ensures ExtractMatchPercentage(t) == Some(100)
  {
    assert MatchEnd(t, 0) == None;
    assert Search(t, 1) == Some((1, 4));
    assert Search(t, 0) == Some((1, 4));
    assert t[1..4] == "234" && "234"[..2] == "23" && "23"[..1] == "2" && "2"[..0] == "";
  }

  lemma NoPercentageNoScore()
    ensures ExtractMatchPercentage("Great candidate, well aligned") == None
  {
    NoDigitNoScore("Great candidate, well aligned");
  }
}
