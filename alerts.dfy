/**
 * Alert records of the backend, the verdict rule of `predict_from_features`,
 * the bounded `RECENT_ALERTS` buffer and the `recent_alerts` query.
 */
module Alerts {
  import opened Wrappers
  import PyList

  /** A decoded JSON document. */
  datatype Json =
    | Null
    | Bool(b: bool)
    | Number(x: real)
    | Str(s: string)
    | Array(items: seq<Json>)
    | Object(members: seq<(string, Json)>)

  /** The feature record of a request: the members of a JSON object, in order. */
  type Features = seq<(string, Json)>

  /** `Alert`: one stored and broadcast classification. */
  datatype Alert = Alert(id: string, malicious: bool, score: Option<real>, timestamp: string, features: Features)

  /**
   * What the classifier does when called on one feature record: no model is
   * loaded, the model has `predict_proba` and gives `p` for class 1, the
   * model only has `predict` and gives the predicted class, or the call raises.
   */
  datatype ClassifierOutcome = NoModel | Probability(p: real) | Label(predicted: int) | Raised

  /** The pair `(malicious, score)` returned by `predict_from_features`. */
  datatype Verdict = Verdict(malicious: bool, score: Option<real>)

  const Threshold: real := 0.5

  /**
   * The verdict rule: a probability is malicious from 0.5 up and is
   * reported as the score; a label is malicious when it is 1 and carries
   * no score; a missing model or a raised error is benign without a score.
   */
  function PredictFromFeatures(outcome: ClassifierOutcome): (v: Verdict)
    ensures v.score.Some? <==> outcome.Probability?
    ensures v.score.Some? ==> v.score.value == outcome.p && (v.malicious <==> v.score.value >= Threshold)
    ensures v.score.None? ==> (v.malicious <==> outcome == Label(1))
    ensures outcome == NoModel || outcome == Raised ==> v == Verdict(false, None)
  {
    match outcome
    case NoModel => Verdict(false, None)
    case Probability(p) => Verdict(p >= Threshold, Some(p))
    case Label(c) => Verdict(c == 1, None)
    case Raised => Verdict(false, None)
  }

  /** `RECENT_LIMIT`: how many alerts the buffer keeps. */
  const RecentLimit: nat := 200

  predicate AllMalicious(alerts: seq<Alert>)
  {
    forall k :: 0 <= k < |alerts| ==> alerts[k].malicious
  }

  /**
   * The buffer after storing one alert: append it, then drop the single
   * oldest entry when the buffer is longer than the limit.
   */
  function Admit(alerts: seq<Alert>, alert: Alert): (r: seq<Alert>)
    ensures |r| > 0 && r[|r| - 1] == alert
    ensures |alerts| < RecentLimit ==> r == alerts + [alert]
    ensures |alerts| >= RecentLimit ==> r == alerts[1..] + [alert]
    ensures |alerts| <= RecentLimit ==> |r| <= RecentLimit
    ensures AllMalicious(alerts) && alert.malicious ==> AllMalicious(r)
  {
    var grown := alerts + [alert];
    if |grown| > RecentLimit then grown[1..] else grown
  }

  /** The buffer after storing each alert of `feed` in turn. */
  function AdmitAll(alerts: seq<Alert>, feed: seq<Alert>): seq<Alert>
  {
    if feed == [] then alerts else Admit(AdmitAll(alerts, feed[..|feed| - 1]), feed[|feed| - 1])
  }

  function Max(a: int, b: int): int { if a >= b then a else b }

  /**
   * Starting from a buffer within the limit, any number of stores leaves
   * exactly the newest `RecentLimit` of everything seen, oldest first.
   */
  lemma {:induction false} AdmitAllKeepsNewest(alerts: seq<Alert>, feed: seq<Alert>)
    requires |alerts| <= RecentLimit
    ensures AdmitAll(alerts, feed) == (alerts + feed)[Max(0, |alerts| + |feed| - RecentLimit)..]
  {
    if feed == [] {
      assert alerts + feed == alerts;
    } else {
      var init := feed[..|feed| - 1];
      var last := feed[|feed| - 1];
      var seen := alerts + init;
      assert alerts + feed == seen + [last];
      AdmitAllKeepsNewest(alerts, init);
      AdmitWindow(seen, last);
    }
  }

  /** Storing one more alert into the newest-200 window of `seen` gives the newest-200 window of `seen + [last]`. */
  lemma AdmitWindow(seen: seq<Alert>, last: Alert)
    ensures Admit(seen[Max(0, |seen| - RecentLimit)..], last) == (seen + [last])[Max(0, |seen| + 1 - RecentLimit)..]
  {
    var m := Max(0, |seen| - RecentLimit);
    var prev := seen[m..];
    if |seen| >= RecentLimit {
      assert prev[1..] + [last] == (seen + [last])[m + 1..];
    }
  }

  /**
   * `RECENT_ALERTS[-limit:]`. A limit between 1 and the buffer size gives
   * that many newest alerts; a larger one gives them all; a limit of 0 also
   * gives them all (the slice `[-0:]` is `[0:]`); a negative limit drops
   * that many oldest alerts. The result is always a tail of the buffer.
   */
  function RecentAlerts(alerts: seq<Alert>, limit: int): (r: seq<Alert>)
    ensures |r| <= |alerts| && r == alerts[|alerts| - |r|..]
    ensures 1 <= limit <= |alerts| ==> |r| == limit
    ensures limit >= |alerts| ==> r == alerts
    ensures limit == 0 ==> r == alerts
    ensures limit < 0 ==> r == alerts[if -limit <= |alerts| then -limit else |alerts|..]
  {
    PyList.SliceFrom(alerts, -limit)
  }

  /** Default `limit` of `recent_alerts`. */
  const DefaultRecentCount: int := 50

  /** Without a `limit`, the newest 50 alerts are returned, or all of them when there are fewer. */
  lemma RecentAlertsDefault(alerts: seq<Alert>)
    ensures var r := RecentAlerts(alerts, DefaultRecentCount);
      |r| == (if |alerts| < DefaultRecentCount then |alerts| else DefaultRecentCount) && r == alerts[|alerts| - |r|..]
  {
  }

  /** A request for no alerts at all still returns the whole buffer. */
  lemma RecentAlertsZeroLimit(a: Alert, b: Alert)
    ensures RecentAlerts([a, b], 0) == [a, b]
    ensures RecentAlerts([a, b], -1) == [b]
  {
  }

  /**
   * The query as it is meant to work: at most `limit` newest alerts, none
   * for a limit of 0 or below.
   */
  function RecentAlertsClamped(alerts: seq<Alert>, limit: int): (r: seq<Alert>)
    ensures |r| == if limit <= 0 then 0 else if limit <= |alerts| then limit else |alerts|
    ensures r == alerts[|alerts| - |r|..]
  {
    if limit <= 0 then [] else PyList.SliceFrom(alerts, -limit)
  }

  /** The two agree on every positive limit. */
  lemma RecentAlertsAgreeOnPositive(alerts: seq<Alert>, limit: int)
    requires limit >= 1
    ensures RecentAlerts(alerts, limit) == RecentAlertsClamped(alerts, limit)
  {
  }
}
