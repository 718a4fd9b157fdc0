/**
 * The rule tables of `analytics.py`: the campaign and sending-account health
 * checks of `HealthMonitor`, which build a list of alerts by successive
 * appends, and `CampaignAnalytics._generate_recommendation`, which reads a
 * verdict off the variants' reply rates. Rates and thresholds are exact reals.
 */
module Analytics {
  import opened Wrappers
  import opened Text

  // ---------------------------------------------------------------------------
  // Alerts

  datatype Level = Info | Ok | Warning | Critical

  /**
   * An alert dictionary, by what it reports and the values its message and
   * `value` field are built from; its `level` is `LevelOf` it.
   */
  datatype Alert =
    | NoSendsYet
    | HighBounceRate(bounceRate: real)
    | LowOpenRate(openRate: real)
    | LowReplyRate(replyRate: real)
    | CampaignHealthy
    | NearDailyLimit(sentToday: int, dailyLimit: int)
    | StillWarming(warmupDay: int)
    | LowReputation(reputation: int)
    | ReputationDeclining(reputation: int)
    | AccountHealthy

  /** The `level` each kind of alert is raised with. */
  function LevelOf(a: Alert): Level {
    match a
    case NoSendsYet => Info
    case HighBounceRate(_) => Critical
    case LowOpenRate(_) => Warning
    case LowReplyRate(_) => Warning
    case CampaignHealthy => Ok
    case NearDailyLimit(_, _) => Warning
    case StillWarming(_) => Info
    case LowReputation(_) => Critical
    case ReputationDeclining(_) => Warning
    case AccountHealthy => Ok
  }

  /** The position of an alert's check in the order the health checks run. */
  function Rank(a: Alert): nat {
    match a
    case NoSendsYet => 0
    case HighBounceRate(_) => 1
    case LowOpenRate(_) => 2
    case LowReplyRate(_) => 3
    case CampaignHealthy => 4
    case NearDailyLimit(_, _) => 5
    case StillWarming(_) => 6
    case LowReputation(_) => 7
    case ReputationDeclining(_) => 7
    case AccountHealthy => 8
  }

  /** The alerts come in the order the checks run, at most one per check. */
  predicate InCheckOrder(alerts: seq<Alert>) {
    forall i, j :: 0 <= i < j < |alerts| ==> Rank(alerts[i]) < Rank(alerts[j])
  }

  /** The alert `a`, when `raise` holds. */
  function When(raise: bool, a: Alert): (r: seq<Alert>)
    ensures a in r <==> raise
    ensures forall b :: b in r ==> b == a
  {
    if raise then [a] else []
  }

  /** `stats.get(key, default)`. */
  function Get(stats: map<string, int>, key: string, default: int): (v: int)
    ensures key in stats ==> v == stats[key]
    ensures key !in stats ==> v == default
  {
    if key in stats then stats[key] else default
  }

  // ---------------------------------------------------------------------------
  // Campaign health

  const BounceRateThreshold: real := 5.0
  /** Defined among the thresholds but consulted by no check. */
  const SpamRateThreshold: real := 0.1
  const OpenRateLow: real := 15.0
  const ReplyRateLow: real := 1.0

  /** `part / sends * 100`, a percentage of the sends. */
  function Percent(part: int, sends: int): real
    requires sends != 0
  {
    part as real / sends as real * 100.0
  }

  /** For a positive send count the bounce threshold is `100 * bounces > 5 * sends`. */
  lemma BounceThresholdCross(part: int, sends: int)
    requires sends > 0
    ensures Percent(part, sends) > BounceRateThreshold <==> 100 * part > 5 * sends
  {
    PercentScaled(part, sends);
    ScaledOrder(Percent(part, sends), sends as real, 5.0, (100 * part) as real, (5 * sends) as real);
  }

  /** For a positive send count the open-rate threshold is `100 * opens < 15 * sends`. */
  lemma OpenThresholdCross(part: int, sends: int)
    requires sends > 0
    ensures Percent(part, sends) < OpenRateLow <==> 100 * part < 15 * sends
  {
    PercentScaled(part, sends);
    ScaledOrder(Percent(part, sends), sends as real, 15.0, (100 * part) as real, (15 * sends) as real);
  }

  /** For a positive send count the reply-rate threshold is `100 * replies < sends`. */
  lemma ReplyThresholdCross(part: int, sends: int)
    requires sends > 0
    ensures Percent(part, sends) < ReplyRateLow <==> 100 * part < sends
  {
    PercentScaled(part, sends);
    ScaledOrder(Percent(part, sends), sends as real, 1.0, (100 * part) as real, sends as real);
  }

  /** Comparing `x` with `t` is comparing their multiples `p` and `q` by the same positive `s`. */
  lemma ScaledOrder(x: real, s: real, t: real, p: real, q: real)
    requires s > 0.0 && x * s == p && t * s == q
    ensures x > t <==> p > q
    ensures x < t <==> p < q
  {
    ScaleCompare(x, t, s);
  }

  /** A percentage of the sends, scaled back by the sends, is a hundred times the part. */
  lemma PercentScaled(part: int, sends: int)
    requires sends > 0
    ensures Percent(part, sends) * sends as real == (100 * part) as real
  {
    var p, s := part as real, sends as real;
    assert p / s * s == p;
    assert p / s * 100.0 * s == p / s * s * 100.0;
  }

  /** Multiplying both sides by a positive number keeps an order. */
  lemma ScaleCompare(x: real, t: real, s: real)
    requires s > 0.0
    ensures x > t <==> x * s > t * s
    ensures x < t <==> x * s < t * s
  {
    if x > t {
      assert (x - t) * s > 0.0;
    } else if x < t {
      assert (t - x) * s > 0.0;
    }
  }

  /**
   * What `HealthMonitor.check_campaign_health` returns: one info alert when
   * nothing was sent; otherwise the alerts of the three checks that fire, in
   * order, or the "ok" alert when none does. So there are one to three
   * alerts.
   */
  function CampaignAlerts(stats: map<string, int>): (alerts: seq<Alert>)
    ensures 1 <= |alerts| <= 3
    ensures Get(stats, "sends", 0) == 0 ==> alerts == [NoSendsYet]
  {
    var sends := Get(stats, "sends", 0);
    if sends == 0 then [NoSendsYet]
    else
      var bounce := Percent(Get(stats, "bounces", 0), sends);
      var open := Percent(Get(stats, "opens", 0), sends);
      var reply := Percent(Get(stats, "replies", 0), sends);
      var raised :=
        When(bounce > BounceRateThreshold, HighBounceRate(bounce))
        + When(open < OpenRateLow && sends > 100, LowOpenRate(open))
        + When(reply < ReplyRateLow && sends > 200, LowReplyRate(reply));
      if raised == [] then [CampaignHealthy] else raised
  }

  /**
   * Once something was sent: a critical alert exactly for a bounce rate above
   * 5%, a warning exactly for an open rate under 15% past 100 sends and one
   * exactly for a reply rate under 1% past 200 sends, the "ok" alert exactly
   * when none of these fired, and no other alert.
   */
  lemma CampaignAlertsRaised(stats: map<string, int>)
    requires Get(stats, "sends", 0) != 0
    ensures var sends := Get(stats, "sends", 0);
      var bounce := Percent(Get(stats, "bounces", 0), sends);
      var open := Percent(Get(stats, "opens", 0), sends);
      var reply := Percent(Get(stats, "replies", 0), sends);
      var alerts := CampaignAlerts(stats);
      && (forall a :: a in alerts ==> a in [HighBounceRate(bounce), LowOpenRate(open), LowReplyRate(reply), CampaignHealthy])
      && (HighBounceRate(bounce) in alerts <==> bounce > BounceRateThreshold)
      && (LowOpenRate(open) in alerts <==> open < OpenRateLow && sends > 100)
      && (LowReplyRate(reply) in alerts <==> reply < ReplyRateLow && sends > 200)
      && (CampaignHealthy in alerts <==>
            HighBounceRate(bounce) !in alerts && LowOpenRate(open) !in alerts && LowReplyRate(reply) !in alerts)
  {
  }

  /** The campaign alerts come in check order. */
  lemma CampaignAlertsOrder(stats: map<string, int>)
    ensures InCheckOrder(CampaignAlerts(stats))
  {
  }

  /** `HealthMonitor.check_campaign_health`, appending alert by alert. */
  method CheckCampaignHealth(stats: map<string, int>) returns (alerts: seq<Alert>)
    ensures alerts == CampaignAlerts(stats)
  {
    var sends := Get(stats, "sends", 0);
    if sends == 0 {
      return [NoSendsYet];
    }
    alerts := [];
    var bounceRate := Percent(Get(stats, "bounces", 0), sends);
    if bounceRate > BounceRateThreshold {
      alerts := alerts + [HighBounceRate(bounceRate)];
    }
    var openRate := Percent(Get(stats, "opens", 0), sends);
    if openRate < OpenRateLow && sends > 100 {
      alerts := alerts + [LowOpenRate(openRate)];
    }
    var replyRate := Percent(Get(stats, "replies", 0), sends);
    if replyRate < ReplyRateLow && sends > 200 {
      alerts := alerts + [LowReplyRate(replyRate)];
    }
    if alerts == [] {
      alerts := alerts + [CampaignHealthy];
    }
  }

  // ---------------------------------------------------------------------------
  // Sending-account health

  /** `sent_today >= daily_limit * 0.9` is an integer comparison. */
  lemma NearLimitThreshold(sentToday: int, dailyLimit: int)
    ensures sentToday as real >= dailyLimit as real * 0.9 <==> 10 * sentToday >= 9 * dailyLimit
  {
    assert 10.0 * (dailyLimit as real * 0.9) == (9 * dailyLimit) as real;
  }

  /**
   * What `HealthMonitor.check_sending_account_health` returns: the alerts of
   * the daily-limit, warm-up and reputation checks that fire, in order, or the
   * "ok" alert when none does, so one to three alerts.
   * Missing statistics default to a limit of 50, nothing sent, day 0 and a
   * reputation of 100.
   */
  function AccountAlerts(stats: map<string, int>): (alerts: seq<Alert>)
    ensures 1 <= |alerts| <= 3
  {
    var limit := Get(stats, "daily_limit", 50);
    var sent := Get(stats, "sent_today", 0);
    var day := Get(stats, "warmup_day", 0);
    var reputation := Get(stats, "reputation", 100);
    var raised :=
      When(sent as real >= limit as real * 0.9, NearDailyLimit(sent, limit))
      + When(day < 14, StillWarming(day))
      + (if reputation < 80 then [LowReputation(reputation)]
         else When(reputation < 95, ReputationDeclining(reputation)));
    if raised == [] then [AccountHealthy] else raised
  }

  /**
   * A warning exactly at 90% of the daily limit, an info alert exactly while
   * the warm-up is under 14 days, a critical alert exactly for a reputation
   * under 80 and a warning exactly for one from 80 to under 95 (so never
   * both), the "ok" alert exactly when none of these fired, and no other alert.
   */
  lemma AccountAlertsRaised(stats: map<string, int>)
    ensures var limit := Get(stats, "daily_limit", 50);
      var sent := Get(stats, "sent_today", 0);
      var day := Get(stats, "warmup_day", 0);
      var reputation := Get(stats, "reputation", 100);
      var alerts := AccountAlerts(stats);
      && (forall a :: a in alerts ==>
            a in [NearDailyLimit(sent, limit), StillWarming(day), LowReputation(reputation), ReputationDeclining(reputation), AccountHealthy])
      && (NearDailyLimit(sent, limit) in alerts <==> sent as real >= limit as real * 0.9)
      && (StillWarming(day) in alerts <==> day < 14)
      && (LowReputation(reputation) in alerts <==> reputation < 80)
      && (ReputationDeclining(reputation) in alerts <==> 80 <= reputation < 95)
      && (AccountHealthy in alerts <==>
            && NearDailyLimit(sent, limit) !in alerts && StillWarming(day) !in alerts
            && LowReputation(reputation) !in alerts && ReputationDeclining(reputation) !in alerts)
  {
  }

  /** The account alerts come in check order. */
  lemma AccountAlertsOrder(stats: map<string, int>)
    ensures InCheckOrder(AccountAlerts(stats))
  {
  }

  /** With no statistics at all the only alert is that the account is on day 0 of its warm-up. */
  lemma AccountDefaults()
    ensures AccountAlerts(map[]) == [StillWarming(0)]
  {
    NearLimitThreshold(0, 50);
  }

  /** `HealthMonitor.check_sending_account_health`, appending alert by alert. */
  method CheckSendingAccountHealth(stats: map<string, int>) returns (alerts: seq<Alert>)
    ensures alerts == AccountAlerts(stats)
  {
    alerts := [];
    var dailyLimit := Get(stats, "daily_limit", 50);
    var sentToday := Get(stats, "sent_today", 0);
    if sentToday as real >= dailyLimit as real * 0.9 {
      alerts := alerts + [NearDailyLimit(sentToday, dailyLimit)];
    }
    var warmupDay := Get(stats, "warmup_day", 0);
    if warmupDay < 14 {
      alerts := alerts + [StillWarming(warmupDay)];
    }
    var reputation := Get(stats, "reputation", 100);
    if reputation < 80 {
      alerts := alerts + [LowReputation(reputation)];
    } else if reputation < 95 {
      alerts := alerts + [ReputationDeclining(reputation)];
    }
    if alerts == [] {
      alerts := alerts + [AccountHealthy];
    }
  }

  // ---------------------------------------------------------------------------
  // Recommendation

  /** `max(xs)`. */
  function Max(xs: seq<real>): (m: real)
    requires xs != []
    ensures m in xs
    ensures forall i :: 0 <= i < |xs| ==> xs[i] <= m
    decreases |xs|
  {
    if |xs| == 1 then xs[0]
    else
      var m := Max(xs[..|xs| - 1]);
      if xs[|xs| - 1] > m then xs[|xs| - 1] else m
  }

  /** The first position holding the maximum. */
  function MaxIndex(xs: seq<real>): (i: nat)
    requires xs != []
    ensures i < |xs| && xs[i] == Max(xs)
    ensures forall k :: 0 <= k < i ==> xs[k] < Max(xs)
  {
    FirstIndexOf(xs, Max(xs), 0)
  }

  function FirstIndexOf(xs: seq<real>, x: real, from: nat): (i: nat)
    requires from <= |xs| && x in xs[from..]
    ensures from <= i < |xs| && xs[i] == x
    ensures forall k :: from <= k < i ==> xs[k] != x
    decreases |xs| - from
  {
    if xs[from] == x then from
    else
      assert xs[from..] == [xs[from]] + xs[from + 1..];
      FirstIndexOf(xs, x, from + 1)
  }

  /** `xs` without its element at `i`. */
  function RemoveAt(xs: seq<real>, i: nat): (rest: seq<real>)
    requires i < |xs|
    ensures |rest| == |xs| - 1
    ensures forall k :: 0 <= k < i ==> rest[k] == xs[k]
    ensures forall k :: i <= k < |rest| ==> rest[k] == xs[k + 1]
  {
    xs[..i] + xs[i + 1..]
  }

  /** `sorted(xs, reverse=True)[1]`: the largest value once one copy of the maximum is set aside. */
  function SecondLargest(xs: seq<real>): (s: real)
    requires |xs| >= 2
    ensures s <= Max(xs)
  {
    var rest := RemoveAt(xs, MaxIndex(xs));
    assert rest[0] == xs[0] || rest[0] == xs[1];
    Max(rest)
  }

  /**
   * `SecondLargest` is the second entry of the values in descending order:
   * it sits at a position other than one holding the maximum, and every other
   * value is at most it.
   */
  lemma SecondLargestRank(xs: seq<real>) returns (i: nat, j: nat)
    requires |xs| >= 2
    ensures i < |xs| && j < |xs| && i != j
    ensures xs[i] == Max(xs) && xs[j] == SecondLargest(xs)
    ensures forall k :: 0 <= k < |xs| && k != i ==> xs[k] <= SecondLargest(xs)
  {
    i := MaxIndex(xs);
    var rest := RemoveAt(xs, i);
    var s := Max(rest);
    assert s == SecondLargest(xs);
    var r :| 0 <= r < |rest| && rest[r] == s;
    j := if r < i then r else r + 1;
    forall k | 0 <= k < |xs| && k != i
      ensures xs[k] <= s
    {
      var m := if k < i then k else k - 1;
      assert xs[k] == rest[m];
    }
  }

  /** Two copies of the maximum make it the second-largest value too. */
  lemma SecondLargestTie(xs: seq<real>, a: nat, b: nat)
    requires a < |xs| && b < |xs| && a != b && xs[a] == xs[b] == Max(xs)
    ensures SecondLargest(xs) == Max(xs)
  {
    var i, j := SecondLargestRank(xs);
    if a != i {
      assert xs[a] <= SecondLargest(xs);
    } else {
      assert xs[b] <= SecondLargest(xs);
    }
  }

  /** Python's `round(x)`: the nearest integer, ties to the even one. */
  function RoundHalfEven(x: real): (n: int)
    ensures -0.5 <= x - n as real <= 0.5
    ensures (x - n as real == 0.5 || x - n as real == -0.5) ==> n % 2 == 0
  {
    var f := x.Floor;
    var d := x - f as real;
    if d < 0.5 then f
    else if d > 0.5 then f + 1
    else if f % 2 == 0 then f
    else f + 1
  }

  datatype Recommendation = ContinueTesting | StrongSignal(percent: int) | ResultsClose | InsufficientData

  /** The `ZeroDivisionError` of the strong-signal message when the runner-up's rate is 0. */
  datatype RecommendationError = ZeroDivision

  /** The text `_generate_recommendation` returns for each verdict. */
  function Message(r: Recommendation): string {
    match r
    case ContinueTesting => "Continue testing - need more volume for reliable results (target: 400+ sends per variant)"
    case StrongSignal(p) =>
      "Strong signal: leading variant outperforms by " + IntToString(p) + "%. Consider promoting to 100% of traffic."
    case ResultsClose => "Results are close - continue testing or consider if variants are meaningfully different"
    case InsufficientData => "Insufficient data for recommendation"
  }

  /** `best > 0 and (best - second) / best > 0.2`. */
  predicate ClearLead(best: real, second: real) {
    best > 0.0 && (best - second) / best > 0.2
  }

  /**
   * `CampaignAnalytics._generate_recommendation` over the variants' reply
   * rates and the test's total sends.
   */
  function GenerateRecommendation(rates: seq<real>, totalSends: int): (r: Result<Recommendation, RecommendationError>)
    ensures totalSends < 200 ==> r == Success(ContinueTesting)
    ensures totalSends >= 200 && |rates| < 2 ==> r == Success(InsufficientData)
  {
    if totalSends < 200 then Success(ContinueTesting)
    else if |rates| >= 2 then
      var best := Max(rates);
      var second := SecondLargest(rates);
      if ClearLead(best, second) then
        if second == 0.0 then Failure(ZeroDivision)
        else Success(StrongSignal(RoundHalfEven((best - second) / second * 100.0)))
      else Success(ResultsClose)
    else Success(InsufficientData)
  }

  /** A lead of more than 20% of the best rate is the integer-free comparison `4 * best > 5 * second`. */
  lemma ClearLeadCross(best: real, second: real)
    ensures ClearLead(best, second) <==> best > 0.0 && 4.0 * best > 5.0 * second
  {
    if best > 0.0 {
      var q := (best - second) / best;
      assert q * best == best - second;
      ScaleCompare(q, 0.2, best);
      assert ClearLead(best, second) <==> q > 0.2;
    }
  }

  /**
   * With enough volume and at least two variants, the verdict is a strong
   * signal exactly when the best rate is positive, beats the runner-up by
   * more than a fifth of itself and the runner-up's rate is not 0; with a
   * runner-up at 0 and a positive best rate the message divides by zero; in
   * every other case the results are close.
   */
  lemma RecommendationVerdicts(rates: seq<real>, totalSends: int)
    requires totalSends >= 200 && |rates| >= 2
    ensures var best, second := Max(rates), SecondLargest(rates);
      var r := GenerateRecommendation(rates, totalSends);
      && (r.Failure? <==> best > 0.0 && second == 0.0)
      && (r.Success? && r.value.StrongSignal? <==> best > 0.0 && 4.0 * best > 5.0 * second && second != 0.0)
      && (r == Success(ResultsClose) <==> !(best > 0.0 && 4.0 * best > 5.0 * second))
  {
    var best, second := Max(rates), SecondLargest(rates);
    var r := GenerateRecommendation(rates, totalSends);
    ClearLeadCross(best, second);
    if !ClearLead(best, second) {
      assert r == Success(ResultsClose);
    } else if second == 0.0 {
      assert r == Failure(ZeroDivision);
    } else {
      assert r.Success? && r.value.StrongSignal?;
    }
  }

  /** A tie for the best rate is never a strong signal. */
  lemma TieIsClose(rates: seq<real>, totalSends: int, a: nat, b: nat)
    requires totalSends >= 200
    requires a < |rates| && b < |rates| && a != b && rates[a] == rates[b] == Max(rates)
    ensures GenerateRecommendation(rates, totalSends) == Success(ResultsClose)
  {
    SecondLargestTie(rates, a, b);
    ClearLeadCross(Max(rates), SecondLargest(rates));
  }
}
