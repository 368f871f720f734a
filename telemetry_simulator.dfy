/** The telemetry simulator: one mutable spacecraft record advanced one tick at
    a time by a stochastic update, with clamped fields and a status classifier.

    The `Math.random()` draws of a tick are passed in as a `TickDraws` record,
    and the velocity magnitude (`Math.sqrt` of the squared components) as an
    abstract function `norm`. The timer behind `start`/`stop` is outside the
    model: `start` receives the handle the timer would return. */
module TelemetryEngine {
  import opened Mission

  function Max(a: real, b: real): real { if a >= b then a else b }

  function Min(a: real, b: real): real { if a <= b then a else b }

  /** `Math.max(lo, Math.min(hi, x))`. */
  function Clamp(lo: real, hi: real, x: real): (r: real)
    requires lo <= hi
    ensures lo <= r <= hi
    ensures lo <= x <= hi ==> r == x
    ensures x < lo ==> r == lo
    ensures x > hi ==> r == hi
  {
    Max(lo, Min(hi, x))
  }

  /** The ten `Math.random()` draws of one tick, in the order the update makes them. */
  datatype TickDraws = TickDraws(
    posX: real, posY: real, posZ: real,
    velX: real, velY: real, velZ: real,
    temperature: real, radiation: real,
    solar: real, battery: real)

  /** A value `Math.random()` can return. */
  predicate IsUnitDraw(r: real) { 0.0 <= r < 1.0 }

  predicate ValidDraws(d: TickDraws)
  {
    IsUnitDraw(d.posX) && IsUnitDraw(d.posY) && IsUnitDraw(d.posZ) &&
    IsUnitDraw(d.velX) && IsUnitDraw(d.velY) && IsUnitDraw(d.velZ) &&
    IsUnitDraw(d.temperature) && IsUnitDraw(d.radiation) &&
    IsUnitDraw(d.solar) && IsUnitDraw(d.battery)
  }

  /** `norm` is the Euclidean length: non-negative, and its square is the sum of squared components. */
  ghost predicate IsEuclideanNorm(norm: Vec3 -> real)
  {
    forall v :: IsLength(v, norm(v))
  }

  /** `s` is the Euclidean length of `v`. */
  predicate IsLength(v: Vec3, s: real)
  {
    s >= 0.0 && s * s == v.x * v.x + v.y * v.y + v.z * v.z
  }

  /** The status classifier: critical takes precedence over maintenance. */
  function Classify(fuel: real, health: real): (s: Status)
    ensures s == Critical <==> fuel < 10.0 || health < 40.0
    ensures s == Maintenance <==> fuel >= 10.0 && health >= 40.0 && (fuel < 30.0 || health < 70.0)
    ensures s == Active <==> fuel >= 30.0 && health >= 70.0
    ensures s != Idle
  {
    if fuel < 10.0 || health < 40.0 then Critical
    else if fuel < 30.0 || health < 70.0 then Maintenance
    else Active
  }

  /** The one-sided health rule: decay by 1 (floored at 30) while fuel or
      battery is below 20, otherwise repair by 0.1 (capped at 100). */
  function NextHealth(health: real, fuel: real, battery: real): (r: real)
    ensures fuel < 20.0 || battery < 20.0 ==> 30.0 <= r <= Max(30.0, health) && r >= health - 1.0
    ensures fuel >= 20.0 && battery >= 20.0 ==> Min(100.0, health) <= r <= 100.0 && r <= health + 0.1
    ensures (fuel < 20.0 || battery < 20.0) && health > 30.0 ==> r < health && (r == health - 1.0 || r == 30.0)
    ensures fuel >= 20.0 && battery >= 20.0 && health < 100.0 ==> r > health && (r == health + 0.1 || r == 100.0)
  {
    if fuel < 20.0 || battery < 20.0 then Max(30.0, health - 1.0)
    else Min(100.0, health + 0.1)
  }

  /** Health never leaves [30, 100], drops only while fuel or battery is low,
      and moves by at most 1 down and 0.1 up per tick; it does move whenever
      it is not already at the end it is heading for. */
  lemma HealthRule(health: real, fuel: real, battery: real)
    requires 30.0 <= health <= 100.0
    ensures 30.0 <= NextHealth(health, fuel, battery) <= 100.0
    ensures NextHealth(health, fuel, battery) < health ==> fuel < 20.0 || battery < 20.0
    ensures NextHealth(health, fuel, battery) > health ==> fuel >= 20.0 && battery >= 20.0
    ensures health - 1.0 <= NextHealth(health, fuel, battery) <= health + 0.1
    ensures (fuel < 20.0 || battery < 20.0) <==>
      NextHealth(health, fuel, battery) < health || NextHealth(health, fuel, battery) == health == 30.0
  {
  }

  /** The bounds every tick clamps the fields to. */
  predicate InEnvelope(t: Telemetry)
  {
    -1000.0 <= t.velocity.x <= 1000.0 &&
    -1000.0 <= t.velocity.y <= 1000.0 &&
    -500.0 <= t.velocity.z <= 500.0 &&
    t.fuel >= 0.0 &&
    -60.0 <= t.temperature <= 100.0 &&
    0.0 <= t.radiation <= 2000.0 &&
    0.0 <= t.batteryLevel <= 100.0
  }

  /** The record invariant the simulator keeps: the envelope, health in
      [30, 100], and a status that agrees with the classifier. */
  predicate Nominal(t: Telemetry)
  {
    InEnvelope(t) && 30.0 <= t.systemHealth <= 100.0 && t.status == Classify(t.fuel, t.systemHealth)
  }

  /** The record the simulator starts from. */
  function InitialTelemetry(now: int): (t: Telemetry)
    ensures Nominal(t) && t.status == Active
  {
    Telemetry("astromind-1", "AstroMind Explorer", Vec3(0.0, 0.0, 0.0), Vec3(0.0, 0.0, 0.0),
              85.0, 23.0, 150.0, 87.0, 94.0, Active, now)
  }

  /** `updateTelemetry` as a function of the old record: position integrates
      the old velocity plus noise; velocity gets noise and is clamped per axis;
      fuel burns by |v|/10000 + 0.1 and is floored at 0; temperature,
      radiation and battery get noise and are clamped; then the health rule
      and the classifier run on the new values. */
  function Tick(t: Telemetry, d: TickDraws, norm: Vec3 -> real, now: int): (r: Telemetry)
    ensures InEnvelope(r)
    ensures r.status == Classify(r.fuel, r.systemHealth)
    ensures r.id == t.id && r.name == t.name && r.lastUpdate == now
  {
    var position := Vec3(
      t.position.x + t.velocity.x * 0.1 + (d.posX - 0.5) * 100.0,
      t.position.y + t.velocity.y * 0.1 + (d.posY - 0.5) * 100.0,
      t.position.z + t.velocity.z * 0.1 + (d.posZ - 0.5) * 50.0);
    var velocity := Vec3(
      Clamp(-1000.0, 1000.0, t.velocity.x + (d.velX - 0.5) * 10.0),
      Clamp(-1000.0, 1000.0, t.velocity.y + (d.velY - 0.5) * 10.0),
      Clamp(-500.0, 500.0, t.velocity.z + (d.velZ - 0.5) * 5.0));
    var fuel := Max(0.0, t.fuel - norm(velocity) / 10000.0 - 0.1);
    var temperature := Clamp(-60.0, 100.0, t.temperature + (d.temperature - 0.5) * 5.0);
    var radiation := Clamp(0.0, 2000.0, t.radiation + (d.radiation - 0.5) * 50.0);
    var solarEfficiency := if d.solar > 0.3 then 1.2 else 0.8;
    var battery := Clamp(0.0, 100.0, t.batteryLevel + (d.battery - 0.5) * 2.0 * solarEfficiency);
    var health := NextHealth(t.systemHealth, fuel, battery);
    t.(position := position, velocity := velocity, fuel := fuel, temperature := temperature,
       radiation := radiation, batteryLevel := battery, systemHealth := health,
       status := Classify(fuel, health), lastUpdate := now)
  }

  /** A tick keeps the record nominal. */
  lemma TickKeepsNominal(t: Telemetry, d: TickDraws, norm: Vec3 -> real, now: int)
    requires Nominal(t)
    ensures Nominal(Tick(t, d, norm, now))
  {
    var r := Tick(t, d, norm, now);
    HealthRule(t.systemHealth, r.fuel, r.batteryLevel);
  }

  /** Fuel never regenerates, and strictly drops while there is any left. */
  lemma FuelNeverIncreases(t: Telemetry, d: TickDraws, norm: Vec3 -> real, now: int)
    requires IsEuclideanNorm(norm)
    requires t.fuel >= 0.0
    ensures Tick(t, d, norm, now).fuel <= t.fuel
    ensures t.fuel > 0.0 ==> Tick(t, d, norm, now).fuel < t.fuel
  {
    var r := Tick(t, d, norm, now);
    assert norm(r.velocity) >= 0.0;
  }

  /** Within the velocity caps |v| <= 1500, so one tick burns at most 0.25 fuel. */
  lemma FuelBurnBounded(t: Telemetry, d: TickDraws, norm: Vec3 -> real, now: int)
    requires IsEuclideanNorm(norm)
    ensures t.fuel - Tick(t, d, norm, now).fuel <= 0.25
  {
    var r := Tick(t, d, norm, now);
    var s := norm(r.velocity);
    SpeedBound(r.velocity, s);
    BurnBound(t.fuel, s);
  }

  lemma BurnBound(fuel: real, s: real)
    requires 0.0 <= s <= 1500.0
    ensures fuel - Max(0.0, fuel - s / 10000.0 - 0.1) <= 0.25
  {
  }

  /** Any vector within the velocity caps has length at most 1500. */
  lemma SpeedBound(v: Vec3, s: real)
    requires -1000.0 <= v.x <= 1000.0 && -1000.0 <= v.y <= 1000.0 && -500.0 <= v.z <= 500.0
    requires s >= 0.0 && s * s == v.x * v.x + v.y * v.y + v.z * v.z
    ensures s <= 1500.0
  {
    SquareBound(v.x, 1000.0);
    SquareBound(v.y, 1000.0);
    SquareBound(v.z, 500.0);
    if s > 1500.0 {
      assert s * s > 1500.0 * s > 1500.0 * 1500.0;
    }
  }

  lemma SquareBound(a: real, b: real)
    requires -b <= a <= b
    ensures a * a <= b * b
  {
    if a >= 0.0 {
      assert a * a <= a * b;
    } else {
      assert a * a <= -a * b;
    }
  }

  /** Position moves by a tenth of the old velocity plus noise within +-50
      (+-25 for z); each velocity axis moves by at most 5 (2.5 for z). */
  lemma TickDrift(t: Telemetry, d: TickDraws, norm: Vec3 -> real, now: int)
    requires Nominal(t) && ValidDraws(d)
    ensures var r := Tick(t, d, norm, now);
      -50.0 <= r.position.x - t.position.x - t.velocity.x * 0.1 < 50.0 &&
      -50.0 <= r.position.y - t.position.y - t.velocity.y * 0.1 < 50.0 &&
      -25.0 <= r.position.z - t.position.z - t.velocity.z * 0.1 < 25.0
    ensures var r := Tick(t, d, norm, now);
      -5.0 <= r.velocity.x - t.velocity.x < 5.0 &&
      -5.0 <= r.velocity.y - t.velocity.y < 5.0 &&
      -2.5 <= r.velocity.z - t.velocity.z < 2.5
  {
  }

  /** Ticks in sequence: each tick takes its draws and the clock reading at that tick. */
  function TickAll(t: Telemetry, ticks: seq<(TickDraws, int)>, norm: Vec3 -> real): (r: Telemetry)
    ensures r.id == t.id && r.name == t.name
    ensures ticks != [] ==> InEnvelope(r) && r.lastUpdate == ticks[|ticks| - 1].1
    ensures ticks != [] ==> r.status == Classify(r.fuel, r.systemHealth)
    decreases ticks
  {
    if ticks == [] then t
    else TickAll(Tick(t, ticks[0].0, norm, ticks[0].1), ticks[1..], norm)
  }

  /** Every field stays within its bounds after any number of ticks, whatever
      the draws and clock readings. */
  lemma {:induction false} NominalForever(t: Telemetry, ticks: seq<(TickDraws, int)>, norm: Vec3 -> real)
    requires Nominal(t)
    ensures Nominal(TickAll(t, ticks, norm))
    decreases ticks
  {
    if ticks != [] {
      TickKeepsNominal(t, ticks[0].0, norm, ticks[0].1);
      NominalForever(Tick(t, ticks[0].0, norm, ticks[0].1), ticks[1..], norm);
    }
  }

  /** Fuel rule dominates: fuel 5 with health 90 is critical. */
  lemma CriticalPrecedence()
    ensures Classify(5.0, 90.0) == Critical
  {
  }

  /** The simulator object: one live record, a running flag and a timer handle. */
  class TelemetrySimulator {
    var baseData: Telemetry
    var isRunning: bool
    var intervalId: Option<nat>
    /** The velocity magnitude (`Math.sqrt` of the squared components). */
    const norm: Vec3 -> real

    ghost predicate Valid()
      reads this
    {
      Nominal(baseData)
    }

    constructor (norm: Vec3 -> real, now: int)
      ensures baseData == InitialTelemetry(now) && !isRunning && intervalId.None?
      ensures this.norm == norm
      ensures Valid()
    {
      baseData := InitialTelemetry(now);
      isRunning := false;
      intervalId := None;
      this.norm := norm;
    }

    /** `start`: a no-op while running; otherwise set the flag and keep the
        timer handle `timer` that the periodic trigger returned. */
    method Start(timer: nat)
      modifies this
      ensures old(isRunning) ==> unchanged(this)
      ensures !old(isRunning) ==> isRunning && intervalId == Some(timer) && baseData == old(baseData)
    {
      if isRunning {
        return;
      }
      isRunning := true;
      intervalId := Some(timer);
    }

    /** `stop`: cancel the timer if there is one and clear the flag; the
        resulting state does not depend on the state before, so stopping
        twice is the same as stopping once. */
    method Stop()
      modifies this
      ensures !isRunning && intervalId.None? && baseData == old(baseData)
    {
      if intervalId.Some? {
        intervalId := None;
      }
      isRunning := false;
    }

    /** `updateTelemetry`: overwrite the record field by field (on a working
        copy that is stored back at the end; nothing reads the record in between). */
    method UpdateTelemetry(d: TickDraws, now: int)
      requires Valid()
      modifies this
      ensures baseData == Tick(old(baseData), d, norm, now)
      ensures isRunning == old(isRunning) && intervalId == old(intervalId)
      ensures Valid()
    {
      var b := baseData;
      var p := b.position;
      var v := b.velocity;
      b := b.(position := Vec3(
        p.x + v.x * 0.1 + (d.posX - 0.5) * 100.0,
        p.y + v.y * 0.1 + (d.posY - 0.5) * 100.0,
        p.z + v.z * 0.1 + (d.posZ - 0.5) * 50.0));

      v := Vec3(v.x + (d.velX - 0.5) * 10.0, v.y + (d.velY - 0.5) * 10.0, v.z + (d.velZ - 0.5) * 5.0);
      v := Vec3(Clamp(-1000.0, 1000.0, v.x), Clamp(-1000.0, 1000.0, v.y), Clamp(-500.0, 500.0, v.z));
      b := b.(velocity := v);

      var velocityMagnitude := norm(v);
      b := b.(fuel := Max(0.0, b.fuel - velocityMagnitude / 10000.0 - 0.1));

      b := b.(temperature := b.temperature + (d.temperature - 0.5) * 5.0);
      b := b.(temperature := Clamp(-60.0, 100.0, b.temperature));

      b := b.(radiation := b.radiation + (d.radiation - 0.5) * 50.0);
      b := b.(radiation := Clamp(0.0, 2000.0, b.radiation));

      var solarEfficiency := if d.solar > 0.3 then 1.2 else 0.8;
      b := b.(batteryLevel := b.batteryLevel + (d.battery - 0.5) * 2.0 * solarEfficiency);
      b := b.(batteryLevel := Clamp(0.0, 100.0, b.batteryLevel));

      if b.fuel < 20.0 || b.batteryLevel < 20.0 {
        b := b.(systemHealth := Max(30.0, b.systemHealth - 1.0));
      } else {
        b := b.(systemHealth := Min(100.0, b.systemHealth + 0.1));
      }

      if b.fuel < 10.0 || b.systemHealth < 40.0 {
        b := b.(status := Critical);
      } else if b.fuel < 30.0 || b.systemHealth < 70.0 {
        b := b.(status := Maintenance);
      } else {
        b := b.(status := Active);
      }

      b := b.(lastUpdate := now);
      ghost var r := Tick(baseData, d, norm, now);
      assert b.velocity == r.velocity && b.fuel == r.fuel && b.batteryLevel == r.batteryLevel;
      assert b.systemHealth == r.systemHealth;
      assert b == r;
      TickKeepsNominal(baseData, d, norm, now);
      baseData := b;
    }

    /** `getCurrentData`: a copy of the record. */
    method GetCurrentData() returns (t: Telemetry)
      ensures t == baseData
    {
      t := baseData;
    }

    /** `setMissionActive`: thrust sets velocity to random values in
        [500,700) x [300,500) x [100,200); deactivation damps each axis to a
        tenth. Nothing else changes. */
    method SetMissionActive(active: bool, rx: real, ry: real, rz: real)
      requires Valid()
      requires IsUnitDraw(rx) && IsUnitDraw(ry) && IsUnitDraw(rz)
      modifies this
      ensures active ==> baseData == old(baseData).(velocity := Vec3(500.0 + rx * 200.0, 300.0 + ry * 200.0, 100.0 + rz * 100.0))
      ensures active ==> 500.0 <= baseData.velocity.x < 700.0 && 300.0 <= baseData.velocity.y < 500.0 && 100.0 <= baseData.velocity.z < 200.0
      ensures !active ==> baseData == old(baseData).(velocity := Vec3(old(baseData.velocity.x) * 0.1, old(baseData.velocity.y) * 0.1, old(baseData.velocity.z) * 0.1))
      ensures isRunning == old(isRunning) && intervalId == old(intervalId)
      ensures Valid()
    {
      if active {
        baseData := baseData.(velocity := baseData.velocity.(x := 500.0 + rx * 200.0));
        baseData := baseData.(velocity := baseData.velocity.(y := 300.0 + ry * 200.0));
        baseData := baseData.(velocity := baseData.velocity.(z := 100.0 + rz * 100.0));
      } else {
        baseData := baseData.(velocity := baseData.velocity.(x := baseData.velocity.x * 0.1));
        baseData := baseData.(velocity := baseData.velocity.(y := baseData.velocity.y * 0.1));
        baseData := baseData.(velocity := baseData.velocity.(z := baseData.velocity.z * 0.1));
      }
    }
  }

  /** Stopping twice leaves the same state as stopping once. */
  method StopIsIdempotent(sim: TelemetrySimulator)
    modifies sim
    ensures !sim.isRunning && sim.intervalId.None? && sim.baseData == old(sim.baseData)
  {
    sim.Stop();
    ghost var once := (sim.isRunning, sim.intervalId, sim.baseData);
    sim.Stop();
    assert (sim.isRunning, sim.intervalId, sim.baseData) == once;
  }
}
