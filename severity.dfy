/**
 * `calculateCVSSSeverity`: the qualitative severity rating scale of the
 * Common Vulnerability Scoring System v3.1 (section 5 of its specification)
 * as the client writes it, over exact reals, and the `parseFloat(x) || 0.0`
 * that feeds it the risk factor of a CVE neighbour.
 */
module Severity {
  import opened Wrappers

  /** The strings 'NONE', 'LOW', 'MEDIUM', 'HIGH' and 'CRITICAL'. */
  datatype Rating = NoRisk | Low | Medium | High | Critical

  function Name(r: Rating): (s: string)
    ensures |s| >= 3
  {
    match r
    case NoRisk => "NONE"
    case Low => "LOW"
    case Medium => "MEDIUM"
    case High => "HIGH"
    case Critical => "CRITICAL"
  }

  /** The position of a rating on the scale, lowest first. */
  function Rank(r: Rating): nat {
    match r
    case NoRisk => 0
    case Low => 1
    case Medium => 2
    case High => 3
    case Critical => 4
  }

  /**
   * `calculateCVSSSeverity(score)`; `None` is the `undefined` the function
   * falls off the end with.
   */
  function CvssSeverity(score: real): (r: Option<Rating>)
    ensures r == Some(NoRisk) <==> score == 0.0
    ensures r == Some(Low) <==> 0.1 <= score <= 3.9
    ensures r == Some(Medium) <==> 3.9 < score <= 6.9
    ensures r == Some(High) <==> 6.9 < score <= 8.9
    ensures r == Some(Critical) <==> 8.9 < score <= 10.0
  {
    if score == 0.0 then Some(NoRisk)
    else if 0.1 <= score <= 3.9 then Some(Low)
    else if 3.9 < score <= 6.9 then Some(Medium)
    else if 6.9 < score <= 8.9 then Some(High)
    else if 8.9 < score <= 10.0 then Some(Critical)
    else None
  }

  /** Scores outside [0, 10], and those strictly between 0 and 0.1, get no rating. */
  lemma Unrated(score: real)
    ensures CvssSeverity(score).None? <==> score < 0.0 || (0.0 < score < 0.1) || 10.0 < score
  {
  }

  /** A higher score never gets a lower rating. */
  lemma Monotone(a: real, b: real)
    requires a <= b && CvssSeverity(a).Some? && CvssSeverity(b).Some?
    ensures Rank(CvssSeverity(a).value) <= Rank(CvssSeverity(b).value)
  {
  }

  /**
   * CVSS base scores carry one decimal digit, and every such score from 0.0
   * to 10.0 gets a rating: the gap below 0.1 holds no one-decimal score.
   */
  lemma OneDecimalScoresRated(tenths: int)
    requires 0 <= tenths <= 100
    ensures CvssSeverity(tenths as real / 10.0).Some?
  {
    var s := tenths as real / 10.0;
    if tenths == 0 {
      assert s == 0.0;
    } else {
      assert 1.0 <= tenths as real;
      assert 0.1 <= s;
    }
  }

  /** What `parseFloat` makes of a string: `NaN`, or a number. */
  datatype Parsed = NaN | Number(x: real)

  /** `parseFloat(riskFactor) || 0.0`: `NaN` and zero are falsy and become 0. */
  function RiskScore(p: Parsed): (score: real)
    ensures p.NaN? ==> score == 0.0
    ensures p.Number? ==> score == p.x
  {
    match p
    case NaN => 0.0
    case Number(x) => if x == 0.0 then 0.0 else x
  }

  /** Details that do not parse as a number rate as 'NONE'. */
  lemma UnparsableIsNone()
    ensures CvssSeverity(RiskScore(NaN)) == Some(NoRisk)
  {
  }
}
