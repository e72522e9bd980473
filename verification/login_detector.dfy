/** The failure signature built from calibration responses and the anomaly
    score of one login response against it (login_detector.py). */
module LoginDetector {
  import opened Wrappers

  /** What the detector reads from one HTTP response: `status_code`,
      `len(response.text)` and the final `url` after redirects. */
  datatype Probe = Probe(status: int, length: nat, url: string)

  /** The failure pattern: a status code and a URL, each `None` when the
      calibration sample disagreed on it, and an inclusive length band. */
  datatype Pattern = Pattern(status: Option<int>, lengthMin: int, lengthMax: int, url: Option<string>)

  /** One entry of the `deviations` list, in place of its formatted text. */
  datatype Reason =
    | StatusChanged(oldStatus: int, newStatus: int)
    | LengthAnomaly(length: int, lo: int, hi: int)
    | Redirected(oldUrl: string, newUrl: string)

  /** The part of `test_credential`'s result that does not carry the response. */
  datatype Verdict = Verdict(isSuccess: bool, score: int, reasons: seq<Reason>)

  /** The slack added on each side of the calibration lengths. */
  const LengthSlack: int := 50
  const StatusWeight: int := 3
  const LengthWeight: int := 2
  const UrlWeight: int := 3
  /** `is_success = score >= 3`. */
  const SuccessThreshold: int := 3

  // ---------------------------------------------------------------------
  // PatternAnalyzer.analyze

  function Statuses(sample: seq<Probe>): (s: seq<int>)
    ensures |s| == |sample| && forall i | 0 <= i < |s| :: s[i] == sample[i].status
  {
    seq(|sample|, i requires 0 <= i < |sample| => sample[i].status)
  }

  function Lengths(sample: seq<Probe>): (s: seq<int>)
    ensures |s| == |sample| && forall i | 0 <= i < |s| :: s[i] == sample[i].length
  {
    seq(|sample|, i requires 0 <= i < |sample| => sample[i].length)
  }

  function Urls(sample: seq<Probe>): (s: seq<string>)
    ensures |s| == |sample| && forall i | 0 <= i < |s| :: s[i] == sample[i].url
  {
    seq(|sample|, i requires 0 <= i < |sample| => sample[i].url)
  }

  /** Python's `set(xs)`. */
  function Distinct<T(==)>(xs: seq<T>): set<T> {
    set x | x in xs
  }

  /** `xs[0] if len(set(xs)) == 1 else None`. */
  function Common<T(==)>(xs: seq<T>): Option<T>
    requires |xs| > 0
  {
    if |Distinct(xs)| == 1 then Some(xs[0]) else None
  }

  /** The set-size test is unanimity: one distinct value exactly when every
      element equals the first. */
  lemma CommonIsUnanimous<T>(xs: seq<T>)
    requires |xs| > 0
    ensures Common(xs) == if forall i | 0 <= i < |xs| :: xs[i] == xs[0] then Some(xs[0]) else None
  {
    var d := Distinct(xs);
    assert xs[0] in d;
    if forall i | 0 <= i < |xs| :: xs[i] == xs[0] {
      assert d == {xs[0]};
    } else {
      var i :| 0 <= i < |xs| && xs[i] != xs[0];
      assert xs[i] in d - {xs[0]};
      assert |d - {xs[0]}| >= 1;
    }
  }

  /** Python's `min(xs)`. */
  function MinOf(xs: seq<int>): (m: int)
    requires |xs| > 0
    ensures m in xs && forall i | 0 <= i < |xs| :: m <= xs[i]
  {
    if |xs| == 1 then xs[0]
    else
      var rest := MinOf(xs[1..]);
      assert forall i | 1 <= i < |xs| :: xs[i] == xs[1..][i - 1];
      if xs[0] <= rest then xs[0] else rest
  }

  /** Python's `max(xs)`. */
  function MaxOf(xs: seq<int>): (m: int)
    requires |xs| > 0
    ensures m in xs && forall i | 0 <= i < |xs| :: xs[i] <= m
  {
    if |xs| == 1 then xs[0]
    else
      var rest := MaxOf(xs[1..]);
      assert forall i | 1 <= i < |xs| :: xs[i] == xs[1..][i - 1];
      if xs[0] >= rest then xs[0] else rest
  }

  /** The unanimous value of a feature over the whole sample, if any. */
  ghost predicate AllStatus(sample: seq<Probe>, v: int) {
    forall i | 0 <= i < |sample| :: sample[i].status == v
  }

  ghost predicate AllUrl(sample: seq<Probe>, v: string) {
    forall i | 0 <= i < |sample| :: sample[i].url == v
  }

  /** `PatternAnalyzer.analyze`. The sample must be non-empty: on an empty
      list `min(lengths)` raises. */
  function Analyze(sample: seq<Probe>): (p: Pattern)
    requires |sample| > 0
    ensures p.status == if AllStatus(sample, sample[0].status) then Some(sample[0].status) else None
    ensures p.url == if AllUrl(sample, sample[0].url) then Some(sample[0].url) else None
    ensures forall i | 0 <= i < |sample| ::
      p.lengthMin + LengthSlack <= sample[i].length <= p.lengthMax - LengthSlack
    ensures exists i | 0 <= i < |sample| :: sample[i].length == p.lengthMin + LengthSlack
    ensures exists i | 0 <= i < |sample| :: sample[i].length == p.lengthMax - LengthSlack
    ensures p.lengthMax - p.lengthMin >= 2 * LengthSlack
  {
    var statuses, lengths, urls := Statuses(sample), Lengths(sample), Urls(sample);
    CommonIsUnanimous(statuses);
    CommonIsUnanimous(urls);
    var lo, hi := MinOf(lengths), MaxOf(lengths);
    assert exists i | 0 <= i < |sample| :: sample[i].length == lo by {
      var i :| 0 <= i < |lengths| && lengths[i] == lo;
      assert sample[i].length == lo;
    }
    assert exists i | 0 <= i < |sample| :: sample[i].length == hi by {
      var i :| 0 <= i < |lengths| && lengths[i] == hi;
      assert sample[i].length == hi;
    }
    Pattern(Common(statuses), lo - LengthSlack, hi + LengthSlack, Common(urls))
  }

  // ---------------------------------------------------------------------
  // The scoring part of LoginDetector.test_credential

  /** `pattern['status_code'] and r.status_code != pattern['status_code']`:
      a status of `None` or `0` is falsy and switches the check off. */
  predicate StatusFires(p: Pattern, r: Probe) {
    p.status.Some? && p.status.value != 0 && r.status != p.status.value
  }

  /** `not (length_min <= len(r.text) <= length_max)`: both ends inclusive. */
  predicate LengthFires(p: Pattern, r: Probe) {
    !(p.lengthMin <= r.length <= p.lengthMax)
  }

  /** `pattern['url'] and r.url != pattern['url']`: a URL of `None` or `""`
      is falsy and switches the check off. */
  predicate UrlFires(p: Pattern, r: Probe) {
    p.url.Some? && p.url.value != "" && r.url != p.url.value
  }

  function Points(fired: bool, weight: int): int {
    if fired then weight else 0
  }

  function Note(fired: bool, reason: Reason): seq<Reason> {
    if fired then [reason] else []
  }

  /** The verdict on one response: the weights of the checks that fired,
      their reasons in check order, and the threshold decision. */
  function Judge(p: Pattern, r: Probe): Verdict {
    var score := Points(StatusFires(p, r), StatusWeight)
               + Points(LengthFires(p, r), LengthWeight)
               + Points(UrlFires(p, r), UrlWeight);
    var reasons := Note(StatusFires(p, r), StatusChanged(p.status.GetOr(0), r.status))
                 + Note(LengthFires(p, r), LengthAnomaly(r.length, p.lengthMin, p.lengthMax))
                 + Note(UrlFires(p, r), Redirected(p.url.GetOr(""), r.url));
    Verdict(score >= SuccessThreshold, score, reasons)
  }

  /** The scoring in `test_credential`, after the request: a running score
      and a deviations list that each check extends in turn. */
  method ScoreResponse(p: Pattern, r: Probe) returns (v: Verdict)
    ensures v == Judge(p, r)
  {
    var deviations: seq<Reason> := [];
    var score := 0;
    if p.status.Some? && p.status.value != 0 && r.status != p.status.value {
      score := score + StatusWeight;
      deviations := deviations + [StatusChanged(p.status.value, r.status)];
    }
    if !(p.lengthMin <= r.length <= p.lengthMax) {
      score := score + LengthWeight;
      deviations := deviations + [LengthAnomaly(r.length, p.lengthMin, p.lengthMax)];
    }
    if p.url.Some? && p.url.value != "" && r.url != p.url.value {
      score := score + UrlWeight;
      deviations := deviations + [Redirected(p.url.value, r.url)];
    }
    var isSuccess := score >= SuccessThreshold;
    v := Verdict(isSuccess, score, deviations);
  }

  /** The position of a reason's check in the order the checks run. */
  function Rank(reason: Reason): nat {
    match reason
    case StatusChanged(_, _) => 0
    case LengthAnomaly(_, _, _) => 1
    case Redirected(_, _) => 2
  }

  function Count(b: bool): nat {
    if b then 1 else 0
  }

  // ---------------------------------------------------------------------
  // Properties of the scorer

  /** The score takes only the sums of distinct weights, from 0 to 8. */
  lemma ScoreRange(p: Pattern, r: Probe)
    ensures Judge(p, r).score in {0, 2, 3, 5, 6, 8}
    ensures 0 <= Judge(p, r).score <= StatusWeight + LengthWeight + UrlWeight
  {
  }

  /** A success is a status or URL deviation; a length anomaly alone (score 2)
      never is one, and any status or URL deviation alone (score 3) is. */
  lemma SuccessIffStrongSignal(p: Pattern, r: Probe)
    ensures Judge(p, r).isSuccess <==> StatusFires(p, r) || UrlFires(p, r)
    ensures Judge(p, r).isSuccess <==> Judge(p, r).score >= 3
    ensures Judge(p, r).score == 2 ==> !Judge(p, r).isSuccess
    ensures Judge(p, r).score == 3 ==> Judge(p, r).isSuccess
  {
  }

  /** One reason per check that fired, in the order status, length, URL, each
      naming the feature it is about; no reasons exactly when the score is 0. */
  lemma ReasonsMatchChecks(p: Pattern, r: Probe)
    ensures var v := Judge(p, r);
      |v.reasons| == Count(StatusFires(p, r)) + Count(LengthFires(p, r)) + Count(UrlFires(p, r))
    ensures var v := Judge(p, r);
      forall i, j | 0 <= i < j < |v.reasons| :: Rank(v.reasons[i]) < Rank(v.reasons[j])
    ensures var v := Judge(p, r);
      (StatusFires(p, r) <==> StatusChanged(p.status.GetOr(0), r.status) in v.reasons) &&
      (LengthFires(p, r) <==> LengthAnomaly(r.length, p.lengthMin, p.lengthMax) in v.reasons) &&
      (UrlFires(p, r) <==> Redirected(p.url.GetOr(""), r.url) in v.reasons)
    ensures var v := Judge(p, r); v.reasons == [] <==> v.score == 0
  {
  }

  /** With both the status and the URL falsy, nothing is ever a success. */
  lemma FalsyPatternNeverSucceeds(p: Pattern, r: Probe)
    requires p.status == None || p.status == Some(0)
    requires p.url == None || p.url == Some("")
    ensures !Judge(p, r).isSuccess && Judge(p, r).score <= LengthWeight
  {
  }

  /** Every calibration response matches the pattern built from its own
      sample: score 0, no reasons, no success. */
  lemma CalibrationMatchesOwnPattern(sample: seq<Probe>, k: int)
    requires |sample| > 0 && 0 <= k < |sample|
    ensures Judge(Analyze(sample), sample[k]) == Verdict(false, 0, [])
  {
    var p := Analyze(sample);
    assert !StatusFires(p, sample[k]);
    assert !LengthFires(p, sample[k]);
    assert !UrlFires(p, sample[k]);
  }

  /** The checks are independent: changing only the feature one check reads,
      so that the check goes from not firing to firing, adds exactly that
      check's weight, whatever the other checks do. */
  lemma DeviationAddsWeight(p: Pattern, r: Probe, status: int, length: nat, url: string)
    ensures !StatusFires(p, r) && StatusFires(p, r.(status := status)) ==>
      Judge(p, r.(status := status)).score == Judge(p, r).score + StatusWeight
    ensures !LengthFires(p, r) && LengthFires(p, r.(length := length)) ==>
      Judge(p, r.(length := length)).score == Judge(p, r).score + LengthWeight
    ensures !UrlFires(p, r) && UrlFires(p, r.(url := url)) ==>
      Judge(p, r.(url := url)).score == Judge(p, r).score + UrlWeight
  {
  }

  /** Three worked cases: every check firing, none firing, and a length
      anomaly alone. */
  lemma ScenarioAllDeviate()
    ensures Judge(Pattern(Some(200), 450, 550, Some("https://x/login")),
                  Probe(302, 80, "https://x/home"))
         == Verdict(true, 8, [StatusChanged(200, 302), LengthAnomaly(80, 450, 550),
                              Redirected("https://x/login", "https://x/home")])
  {
  }

  lemma ScenarioMatch()
    ensures Judge(Pattern(Some(200), 450, 550, Some("https://x/login")),
                  Probe(200, 500, "https://x/login"))
         == Verdict(false, 0, [])
  {
  }

  lemma ScenarioLengthOnly()
    ensures Judge(Pattern(Some(200), 450, 550, Some("https://x/login")),
                  Probe(200, 700, "https://x/login"))
         == Verdict(false, 2, [LengthAnomaly(700, 450, 550)])
  {
  }
}
