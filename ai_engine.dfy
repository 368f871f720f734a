/** The advisory engine: a fixed, ordered list of threshold rules over one
    telemetry record, a trend detector over a bounded history of records, and
    the fuel and risk estimate of a mission plan. */
module Advisory {
  import opened Mission

  // ---------------------------------------------------------------------
  // Threshold rules
  // ---------------------------------------------------------------------

  /** The five advisories a record can trigger; each carries the reading its message quotes. */
  function AbortAdvice(t: Telemetry): Recommendation
  { Recommendation(FuelAdvice, CriticalPriority, Some(AbortMission), t.fuel) }

  function OptimizeAdvice(t: Telemetry): Recommendation
  { Recommendation(FuelAdvice, High, Some(OptimizeTrajectory), t.fuel) }

  function DiagnosticsAdvice(t: Telemetry): Recommendation
  { Recommendation(MaintenanceAdvice, High, Some(RunDiagnostics), t.systemHealth) }

  function ThermalAdvice(t: Telemetry): Recommendation
  { Recommendation(MaintenanceAdvice, Medium, Some(ThermalRegulation), t.temperature) }

  function RadiationAdvice(t: Telemetry): Recommendation
  { Recommendation(Navigation, High, Some(AvoidRadiation), t.radiation) }

  /** The position of an advisory's rule in the fixed rule order. */
  function RuleOrder(r: Recommendation): nat
  {
    match r.action
    case Some(RunDiagnostics) => 1
    case Some(ThermalRegulation) => 2
    case Some(AvoidRadiation) => 3
    case _ => 0
  }

  /** The rules one at a time, in source order. */
  function FuelRule(t: Telemetry): seq<Recommendation>
  {
    if t.fuel < 20.0 then [AbortAdvice(t)]
    else if t.fuel < 40.0 then [OptimizeAdvice(t)]
    else []
  }

  function DiagnosticsRule(t: Telemetry): seq<Recommendation>
  { if t.systemHealth < 60.0 then [DiagnosticsAdvice(t)] else [] }

  predicate TemperatureOutOfRange(t: Telemetry)
  { t.temperature > 80.0 || t.temperature < -50.0 }

  function ThermalRule(t: Telemetry): seq<Recommendation>
  { if TemperatureOutOfRange(t) then [ThermalAdvice(t)] else [] }

  function RadiationRule(t: Telemetry): seq<Recommendation>
  { if t.radiation > 1000.0 then [RadiationAdvice(t)] else [] }

  /** `analyzeTelemetry`: fuel (critical below 20, else high below 40), then
      health below 60, then temperature above 80 or below -50, then radiation
      above 1000; each rule appends at most one advisory. */
  function AnalyzeTelemetry(t: Telemetry): (recs: seq<Recommendation>)
    ensures AbortAdvice(t) in recs <==> t.fuel < 20.0
    ensures OptimizeAdvice(t) in recs <==> 20.0 <= t.fuel < 40.0
    ensures DiagnosticsAdvice(t) in recs <==> t.systemHealth < 60.0
    ensures ThermalAdvice(t) in recs <==> TemperatureOutOfRange(t)
    ensures RadiationAdvice(t) in recs <==> t.radiation > 1000.0
    ensures forall r :: r in recs ==>
      r == AbortAdvice(t) || r == OptimizeAdvice(t) || r == DiagnosticsAdvice(t) ||
      r == ThermalAdvice(t) || r == RadiationAdvice(t)
    ensures |recs| <= 4
    ensures recs == [] <==>
      t.fuel >= 40.0 && t.systemHealth >= 60.0 && !TemperatureOutOfRange(t) && t.radiation <= 1000.0
  {
    FuelRule(t) + DiagnosticsRule(t) + ThermalRule(t) + RadiationRule(t)
  }

  /** Advisories come out in rule order, so no rule contributes twice. */
  lemma AnalyzeInRuleOrder(t: Telemetry)
    ensures forall i, j :: 0 <= i < j < |AnalyzeTelemetry(t)| ==>
      RuleOrder(AnalyzeTelemetry(t)[i]) < RuleOrder(AnalyzeTelemetry(t)[j])
  {
    var a, b, c, d := FuelRule(t), DiagnosticsRule(t), ThermalRule(t), RadiationRule(t);
    var recs := a + b + c + d;
    assert AnalyzeTelemetry(t) == recs;
    forall i | 0 <= i < |recs|
      ensures RuleOrder(recs[i]) == if i < |a| then 0 else if i < |a| + |b| then 1
        else if i < |a| + |b| + |c| then 2 else 3
    {
    }
  }

  /** How many advisories of a kind a list holds. */
  function CountKind(recs: seq<Recommendation>, kind: RecommendationType): nat
  {
    if recs == [] then 0
    else (if recs[0].kind == kind then 1 else 0) + CountKind(recs[1..], kind)
  }

  lemma {:induction false} CountKindConcat(a: seq<Recommendation>, b: seq<Recommendation>, kind: RecommendationType)
    ensures CountKind(a + b, kind) == CountKind(a, kind) + CountKind(b, kind)
  {
    if a == [] {
      assert a + b == b;
    } else {
      assert (a + b)[1..] == a[1..] + b;
      CountKindConcat(a[1..], b, kind);
    }
  }

  lemma CountKindAtMostOne(rs: seq<Recommendation>, kind: RecommendationType)
    requires |rs| <= 1
    ensures CountKind(rs, kind) == Indicator(rs != [] && rs[0].kind == kind)
  {
    if rs != [] {
      assert rs[1..] == [];
    }
  }

  function Indicator(b: bool): nat { if b then 1 else 0 }

  /** Per kind: exactly one fuel advisory below 40% fuel and none otherwise;
      one maintenance advisory per health and temperature rule; one
      navigation advisory for high radiation; never a mission advisory. */
  lemma AdvisoryCounts(t: Telemetry)
    ensures CountKind(AnalyzeTelemetry(t), FuelAdvice) == Indicator(t.fuel < 40.0)
    ensures CountKind(AnalyzeTelemetry(t), MaintenanceAdvice) ==
      Indicator(t.systemHealth < 60.0) + Indicator(TemperatureOutOfRange(t))
    ensures CountKind(AnalyzeTelemetry(t), Navigation) == Indicator(t.radiation > 1000.0)
    ensures CountKind(AnalyzeTelemetry(t), MissionAdvice) == 0
  {
    AnalyzeCount(t, FuelAdvice);
    AnalyzeCount(t, MaintenanceAdvice);
    AnalyzeCount(t, Navigation);
    AnalyzeCount(t, MissionAdvice);
  }

  lemma AnalyzeCount(t: Telemetry, kind: RecommendationType)
    ensures CountKind(AnalyzeTelemetry(t), kind) ==
      Indicator(FuelRule(t) != [] && FuelRule(t)[0].kind == kind) +
      Indicator(DiagnosticsRule(t) != [] && DiagnosticsRule(t)[0].kind == kind) +
      Indicator(ThermalRule(t) != [] && ThermalRule(t)[0].kind == kind) +
      Indicator(RadiationRule(t) != [] && RadiationRule(t)[0].kind == kind)
  {
    var fuel, health, thermal, radiation := FuelRule(t), DiagnosticsRule(t), ThermalRule(t), RadiationRule(t);
    assert AnalyzeTelemetry(t) == fuel + health + thermal + radiation;
    CountKindConcat(fuel + health + thermal, radiation, kind);
    CountKindConcat(fuel + health, thermal, kind);
    CountKindConcat(fuel, health, kind);
    CountKindAtMostOne(fuel, kind);
    CountKindAtMostOne(health, kind);
    CountKindAtMostOne(thermal, kind);
    CountKindAtMostOne(radiation, kind);
  }

  /** Low fuel with otherwise healthy readings yields the abort advisory alone. */
  lemma LowFuelAlone(t: Telemetry)
    requires t.fuel == 15.0 && t.systemHealth == 94.0 && t.temperature == 23.0 && t.radiation == 150.0
    ensures AnalyzeTelemetry(t) == [AbortAdvice(t)]
  {
  }

  // ---------------------------------------------------------------------
  // Trend detection over the history
  // ---------------------------------------------------------------------

  const MaxHistory: nat := 100
  const WindowSize: nat := 5

  datatype Anomaly = RapidFuelDepletion | TemperatureInstability | HealthDegradation
  {
    function Message(): string
    {
      match this
      case RapidFuelDepletion => "Rapid fuel depletion detected"
      case TemperatureInstability => "Temperature instability detected"
      case HealthDegradation => "System health degradation detected"
    }

    /** The order in which the detector reports anomalies. */
    function Rank(): nat
    {
      match this
      case RapidFuelDepletion => 0
      case TemperatureInstability => 1
      case HealthDegradation => 2
    }
  }

  /** `Math.max(...s)`. */
  function MaxOf(s: seq<real>): (m: real)
    requires |s| > 0
    ensures forall i :: 0 <= i < |s| ==> s[i] <= m
    ensures exists i :: 0 <= i < |s| && s[i] == m
  {
    if |s| == 1 then s[0]
    else
      var rest := MaxOf(s[1..]);
      assert forall i :: 1 <= i < |s| ==> s[i] == s[1..][i - 1];
      if s[0] >= rest then s[0] else rest
  }

  /** `Math.min(...s)`. */
  function MinOf(s: seq<real>): (m: real)
    requires |s| > 0
    ensures forall i :: 0 <= i < |s| ==> m <= s[i]
    ensures exists i :: 0 <= i < |s| && s[i] == m
  {
    if |s| == 1 then s[0]
    else
      var rest := MinOf(s[1..]);
      assert forall i :: 1 <= i < |s| ==> s[i] == s[1..][i - 1];
      if s[0] <= rest then s[0] else rest
  }

  /** `recent.map(t => t.temperature)`. */
  function Temperatures(h: seq<Telemetry>): (temps: seq<real>)
    ensures |temps| == |h| && forall i :: 0 <= i < |h| ==> temps[i] == h[i].temperature
  {
    seq(|h|, i requires 0 <= i < |h| => h[i].temperature)
  }

  /** The spread of a list exceeds a bound exactly when some pair of its
      entries differs by more than the bound. */
  lemma SpreadExceeds(s: seq<real>, bound: real)
    requires |s| > 0
    ensures MaxOf(s) - MinOf(s) > bound <==> exists i, j :: 0 <= i < |s| && 0 <= j < |s| && s[i] - s[j] > bound
  {
    var hi :| 0 <= hi < |s| && s[hi] == MaxOf(s);
    var lo :| 0 <= lo < |s| && s[lo] == MinOf(s);
    if MaxOf(s) - MinOf(s) > bound {
      assert s[hi] - s[lo] > bound;
    }
  }

  /** The records the detector judges: the last five. */
  function Window(h: seq<Telemetry>): (recent: seq<Telemetry>)
    requires |h| >= WindowSize
    ensures |recent| == WindowSize && recent == h[|h| - WindowSize..]
  {
    h[|h| - WindowSize..]
  }

  /** Two of the records' temperatures differ by more than `bound`. */
  predicate TemperatureSpreadExceeds(recent: seq<Telemetry>, bound: real)
  {
    exists i, j :: 0 <= i < |recent| && 0 <= j < |recent| && recent[i].temperature - recent[j].temperature > bound
  }

  /** `Math.max(...temps) - Math.min(...temps) > bound` is that pairwise test. */
  lemma TemperatureSpread(recent: seq<Telemetry>, bound: real)
    requires |recent| > 0
    ensures MaxOf(Temperatures(recent)) - MinOf(Temperatures(recent)) > bound <==> TemperatureSpreadExceeds(recent, bound)
  {
    var temps := Temperatures(recent);
    SpreadExceeds(temps, bound);
    if TemperatureSpreadExceeds(recent, bound) {
      var i, j :| 0 <= i < |recent| && 0 <= j < |recent| && recent[i].temperature - recent[j].temperature > bound;
      assert temps[i] - temps[j] > bound;
    }
  }

  /** The anomalies whose checks fired, in report order. */
  function Reported(fuelDrop: bool, tempSpread: bool, healthDrop: bool): (r: seq<Anomaly>)
    ensures RapidFuelDepletion in r <==> fuelDrop
    ensures TemperatureInstability in r <==> tempSpread
    ensures HealthDegradation in r <==> healthDrop
    ensures forall i, j :: 0 <= i < j < |r| ==> r[i].Rank() < r[j].Rank()
  {
    (if fuelDrop then [RapidFuelDepletion] else []) +
    (if tempSpread then [TemperatureInstability] else []) +
    (if healthDrop then [HealthDegradation] else [])
  }

  /** The checks over one window, in the order the detector makes them. */
  function WindowAnomalies(recent: seq<Telemetry>): (r: seq<Anomaly>)
    requires |recent| == WindowSize
    ensures RapidFuelDepletion in r <==> recent[0].fuel - recent[WindowSize - 1].fuel > 10.0
    ensures TemperatureInstability in r <==> TemperatureSpreadExceeds(recent, 30.0)
    ensures HealthDegradation in r <==> recent[0].systemHealth - recent[WindowSize - 1].systemHealth > 15.0
    ensures forall i, j :: 0 <= i < j < |r| ==> r[i].Rank() < r[j].Rank()
  {
    var temps := Temperatures(recent);
    TemperatureSpread(recent, 30.0);
    Reported(
      recent[0].fuel - recent[WindowSize - 1].fuel > 10.0,
      MaxOf(temps) - MinOf(temps) > 30.0,
      recent[0].systemHealth - recent[WindowSize - 1].systemHealth > 15.0)
  }

  /** The anomalies of a history, judged on its last five records once it
      holds more than five: fuel fell by more than 10 from the first to the
      last of them, two of their temperatures differ by more than 30, or
      health fell by more than 15. Reported in that order. */
  function TrendAnomalies(h: seq<Telemetry>): (r: seq<Anomaly>)
    ensures |h| <= WindowSize ==> r == []
    ensures RapidFuelDepletion in r <==>
      |h| > WindowSize && Window(h)[0].fuel - Window(h)[WindowSize - 1].fuel > 10.0
    ensures TemperatureInstability in r <==> |h| > WindowSize && TemperatureSpreadExceeds(Window(h), 30.0)
    ensures HealthDegradation in r <==>
      |h| > WindowSize && Window(h)[0].systemHealth - Window(h)[WindowSize - 1].systemHealth > 15.0
    ensures forall i, j :: 0 <= i < j < |r| ==> r[i].Rank() < r[j].Rank()
  {
    if |h| <= WindowSize then [] else WindowAnomalies(Window(h))
  }

  /** A 15-point fuel drop across the window is reported; an 8-point drop is not. */
  lemma FuelDropThreshold(h: seq<Telemetry>)
    requires |h| == 6
    ensures h[1].fuel == 90.0 && h[5].fuel == 75.0 ==> RapidFuelDepletion in TrendAnomalies(h)
    ensures h[1].fuel == 90.0 && h[5].fuel == 82.0 ==> RapidFuelDepletion !in TrendAnomalies(h)
  {
  }

  /** The history after one observation: the new record appended, and the
      oldest record evicted when that makes more than 100. */
  function Admit(history: seq<Telemetry>, t: Telemetry): (h: seq<Telemetry>)
    requires |history| <= MaxHistory
    ensures |h| <= MaxHistory && |h| > 0 && h[|h| - 1] == t
    ensures h == history + [t] || h == (history + [t])[1..]
    ensures |history| < MaxHistory ==> h == history + [t]
    ensures |history| == MaxHistory ==> h == history[1..] + [t]
  {
    if |history| + 1 > MaxHistory then (history + [t])[1..] else history + [t]
  }

  /** The engine object; only the anomaly detector keeps state. */
  class AIEngine {
    var telemetryHistory: seq<Telemetry>

    ghost predicate Valid()
      reads this
    {
      |telemetryHistory| <= MaxHistory
    }

    constructor ()
      ensures telemetryHistory == [] && Valid()
    {
      telemetryHistory := [];
    }

    /** `detectAnomalies`: push the record, shift out the oldest beyond 100,
        then check the trends over the last five records. */
    method DetectAnomalies(t: Telemetry) returns (anomalies: seq<Anomaly>)
      requires Valid()
      modifies this
      ensures Valid()
      ensures telemetryHistory == Admit(old(telemetryHistory), t)
      ensures anomalies == TrendAnomalies(telemetryHistory)
    {
      anomalies := [];
      telemetryHistory := telemetryHistory + [t];
      if |telemetryHistory| > MaxHistory {
        telemetryHistory := telemetryHistory[1..];
      }

      if |telemetryHistory| > WindowSize {
        var recent := Window(telemetryHistory);

        var fuelDecrease := recent[0].fuel - recent[WindowSize - 1].fuel;
        if fuelDecrease > 10.0 {
          anomalies := anomalies + [RapidFuelDepletion];
        }
        ghost var fuelPart := anomalies;

        var tempTrend := Temperatures(recent);
        var tempVariance := MaxOf(tempTrend) - MinOf(tempTrend);
        if tempVariance > 30.0 {
          anomalies := anomalies + [TemperatureInstability];
        }
        ghost var tempPart := anomalies;

        var healthDecrease := recent[0].systemHealth - recent[WindowSize - 1].systemHealth;
        if healthDecrease > 15.0 {
          anomalies := anomalies + [HealthDegradation];
        }
        assert fuelPart == if fuelDecrease > 10.0 then [RapidFuelDepletion] else [];
        assert tempPart == fuelPart + if tempVariance > 30.0 then [TemperatureInstability] else [];
        assert anomalies == tempPart + if healthDecrease > 15.0 then [HealthDegradation] else [];
        assert anomalies == Reported(fuelDecrease > 10.0, tempVariance > 30.0, healthDecrease > 15.0);
        assert anomalies == WindowAnomalies(recent);
      }
    }
  }

  // ---------------------------------------------------------------------
  // Mission plan estimate
  // ---------------------------------------------------------------------

  /** `predictFuelUsage`: (0.1 + |v|/1000) * duration * (2 - health/100),
      with |v| given by the abstract length function `norm`. With a
      non-negative speed and duration, the estimate lies between the base
      consumption 0.1 per unit of duration (at full health or worse) and twice
      the speed-adjusted consumption (at zero health or better). */
  function PredictFuelUsage(t: Telemetry, missionDuration: real, norm: Vec3 -> real): (usage: real)
    ensures norm(t.velocity) >= 0.0 && missionDuration >= 0.0 && t.systemHealth <= 100.0 ==>
      usage >= 0.1 * missionDuration
    ensures norm(t.velocity) >= 0.0 && missionDuration >= 0.0 && t.systemHealth >= 0.0 ==>
      usage <= 2.0 * (0.1 + norm(t.velocity) / 1000.0) * missionDuration
  {
    var rate := 0.1 + norm(t.velocity) / 1000.0;
    var efficiency := 2.0 - t.systemHealth / 100.0;
    ScaleAtLeast(rate * missionDuration, 0.1 * missionDuration, efficiency, 1.0);
    ScaleAtLeast(rate * missionDuration, rate * missionDuration, 2.0, efficiency);
    rate * missionDuration * efficiency
  }

  /** A product of non-negative factors grows with each factor. */
  lemma ScaleAtLeast(x: real, y: real, e: real, f: real)
    ensures 0.0 <= y <= x && 0.0 <= f <= e ==> y * f <= x * e
  {
    if 0.0 <= y <= x && 0.0 <= f <= e {
      assert x * e - y * f == (x - y) * e + y * (e - f);
      assert (x - y) * e >= 0.0;
      assert y * (e - f) >= 0.0;
    }
  }

  /** Worse health never lowers the estimate, and neither does a longer duration. */
  lemma FuelUsageMonotone(t1: Telemetry, t2: Telemetry, d1: real, d2: real, norm: Vec3 -> real)
    requires t1.velocity == t2.velocity && norm(t1.velocity) >= 0.0
    requires t1.systemHealth <= t2.systemHealth <= 200.0
    requires 0.0 <= d2 <= d1
    ensures PredictFuelUsage(t1, d1, norm) >= PredictFuelUsage(t2, d2, norm)
  {
    var rate := 0.1 + norm(t1.velocity) / 1000.0;
    var e1, e2 := 2.0 - t1.systemHealth / 100.0, 2.0 - t2.systemHealth / 100.0;
    ScaleAtLeast(rate * d1, rate * d2, e1, e2);
    assert PredictFuelUsage(t1, d1, norm) == rate * d1 * e1;
    assert PredictFuelUsage(t2, d2, norm) == rate * d2 * e2;
  }

  /** The risk classification: high above 80% of the fuel on board, medium above 60%, else low. */
  function Risk(fuelRequirement: real, fuel: real): (r: RiskLevel)
    ensures r == HighRisk <==> fuelRequirement > fuel * 0.8
    ensures r == MediumRisk <==> fuelRequirement <= fuel * 0.8 && fuelRequirement > fuel * 0.6
    ensures r == LowRisk <==> fuelRequirement <= fuel * 0.8 && fuelRequirement <= fuel * 0.6
  {
    if fuelRequirement > fuel * 0.8 then HighRisk
    else if fuelRequirement > fuel * 0.6 then MediumRisk
    else LowRisk
  }

  function Severity(r: RiskLevel): nat
  {
    match r
    case LowRisk => 0
    case MediumRisk => 1
    case HighRisk => 2
  }

  /** With fuel on board, a larger requirement never lowers the risk level, and
      less fuel on board never lowers it either. */
  lemma RiskMonotone(req1: real, req2: real, fuel1: real, fuel2: real)
    requires req1 <= req2 && 0.0 <= fuel2 <= fuel1
    ensures Severity(Risk(req1, fuel1)) <= Severity(Risk(req2, fuel2))
  {
  }

  /** `generateMissionPlan` without its identifier, name and launch window:
      the straight two-node trajectory, the duration distance/10000, the fuel
      estimate for that duration, and the risk level of that estimate. */
  function GenerateMissionPlan(startPos: Vec3, targetPos: Vec3, t: Telemetry, norm: Vec3 -> real): (plan: MissionPlan)
    ensures plan.duration == norm(Vec3(targetPos.x - startPos.x, targetPos.y - startPos.y, targetPos.z - startPos.z)) / 10000.0
    ensures |plan.trajectory| == 2
    ensures plan.trajectory[0].Pos() == Point(startPos.x, startPos.y)
    ensures plan.trajectory[0].g == plan.trajectory[0].h == plan.trajectory[0].f == 0.0
    ensures plan.trajectory[1].Pos() == Point(targetPos.x, targetPos.y) && plan.trajectory[1].h == 0.0
    ensures plan.trajectory[1].g == plan.trajectory[1].f == plan.duration * 10000.0
    ensures plan.trajectory[0].parent.None? && plan.trajectory[1].parent.None?
    ensures |plan.objectives| == 3
    ensures plan.fuelRequirement == PredictFuelUsage(t, plan.duration, norm)
    ensures plan.riskLevel == HighRisk <==> plan.fuelRequirement > t.fuel * 0.8
    ensures plan.riskLevel == MediumRisk <==> plan.fuelRequirement <= t.fuel * 0.8 && plan.fuelRequirement > t.fuel * 0.6
    ensures plan.riskLevel == LowRisk <==> plan.fuelRequirement <= t.fuel * 0.6 && plan.fuelRequirement <= t.fuel * 0.8
  {
    var distance := norm(Vec3(targetPos.x - startPos.x, targetPos.y - startPos.y, targetPos.z - startPos.z));
    var estimatedDuration := distance / 10000.0;
    var fuelRequirement := PredictFuelUsage(t, estimatedDuration, norm);
    MissionPlan(
      [PathNode(startPos.x, startPos.y, 0.0, 0.0, 0.0, None),
       PathNode(targetPos.x, targetPos.y, distance, 0.0, distance, None)],
      fuelRequirement,
      estimatedDuration,
      Risk(fuelRequirement, t.fuel),
      ["Navigate to target coordinates", "Maintain system integrity", "Optimize fuel consumption"])
  }
}
