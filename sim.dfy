/**
 * One frame of the 2D simulation (src/sim.js): burn energy, move intensity
 * toward its target, put the fire out when the energy runs dry, spawn
 * flame particles with a fractional carry, and age the particle lists.
 */
module Sim {
  import opened FireMath
  import opened FireState
  import opened Logs2D
  import opened Fire
  import opened Ui

  datatype Option<T> = None | Some(value: T)

  /** env.airTemp: the ambient air in degrees Celsius. */
  const AirTemp: real := 22.0

  /** The step's time step in seconds: dtMs capped at 60 ms. */
  function DtSeconds(dtMs: real): (dt: real)
    ensures dt <= 0.06
    ensures dtMs <= 60.0 ==> dt * 1000.0 == dtMs
    ensures 60.0 <= dtMs ==> dt == 0.06
    ensures 0.0 <= dtMs ==> 0.0 <= dt
  {
    Min(60.0, dtMs) / 1000.0
  }

  /** energyToSeconds(E): the HUD's notional seconds of fuel left. */
  function EnergyToSeconds(energy: real): (secs: real)
    ensures FuelSecondsToEnergy(secs) == energy
    ensures 0.0 <= energy ==> 0.0 <= secs
  {
    energy / 30.0
  }

  /** energyToSeconds undoes fuelSecondsToEnergy. */
  lemma SecondsRoundTrip(secs: real)
    ensures EnergyToSeconds(FuelSecondsToEnergy(secs)) == secs
  {
  }

  /**
   * targetIntensityFromEnergy(E): 0 without energy, otherwise a saturating
   * curve above 0.12 capped at 1. `expNeg` stands for x |-> Math.exp(-x).
   */
  function TargetIntensity(energy: real, expNeg: real -> real): (r: real)
    ensures energy <= 0.0 ==> r == 0.0
    ensures r <= 1.0
    ensures IsDecay(expNeg) && 0.0 < energy ==> 0.12 < r
  {
    if energy <= 0.0 then 0.0
    else Min(1.0, 0.12 + 0.9 * (1.0 - expNeg(energy / 1800.0)))
  }

  /** The fire's three scalar fields, as one value. */
  datatype Flame = Flame(alive: bool, energy: real, intensity: real)

  /** Energy burned per second; `pow18` stands for x |-> Math.pow(x, 1.8). */
  function BurnRate(intensity: real, radiant: real, pow18: real -> real): (rate: real)
    ensures IsPowerCurve(pow18) && 0.0 <= intensity && 0.0 <= radiant ==> 12.0 <= rate
  {
    12.0 + pow18(intensity) * 70.0 + radiant * 4.0
  }

  /**
   * The flame fields after one step, given the radiant total of the frame:
   * a burning fire loses BurnRate * dt of energy (never below zero), its
   * intensity moves the fraction min(1, 2 dt) of the way to the target,
   * and it goes out, with intensity 0, in the step its energy reaches zero;
   * a fire that is out has its intensity forced to zero.
   */
  function FlameStep(f: Flame, dt: real, radiant: real, pow18: real -> real, expNeg: real -> real): (r: Flame)
    ensures 0.0 <= r.energy || r == f.(intensity := 0.0)
    ensures r.alive <==> f.alive && 0.0 < r.energy
  {
    if !f.alive then f.(intensity := 0.0)
    else
      var energy := Max(0.0, f.energy - BurnRate(f.intensity, radiant, pow18) * dt);
      var intensity := Lerp(f.intensity, TargetIntensity(energy, expNeg), Min(1.0, dt * 2.0));
      if energy == 0.0 then Flame(false, energy, 0.0) else Flame(true, energy, intensity)
  }

  /**
   * A burning fire's energy never goes negative and never rises; each step
   * burns at least 12 units per second, so it ends at most max(0, E - 12 dt).
   */
  lemma BurnLowersEnergy(f: Flame, dt: real, radiant: real, pow18: real -> real, expNeg: real -> real)
    requires f.alive && IsPowerCurve(pow18)
    requires 0.0 <= f.intensity && 0.0 <= radiant && 0.0 <= dt
    ensures var r := FlameStep(f, dt, radiant, pow18, expNeg);
            0.0 <= r.energy <= Max(0.0, f.energy - 12.0 * dt) && (0.0 <= f.energy ==> r.energy <= f.energy)
  {
    var rate := BurnRate(f.intensity, radiant, pow18);
    MulMono(12.0, rate, dt);
  }

  /** Intensity stays in [0, 1]: the update is a convex combination of the old intensity and the target. */
  lemma IntensityStaysInUnit(f: Flame, dt: real, radiant: real, pow18: real -> real, expNeg: real -> real)
    requires IsDecay(expNeg)
    requires 0.0 <= f.intensity <= 1.0 && 0.0 <= dt
    ensures 0.0 <= FlameStep(f, dt, radiant, pow18, expNeg).intensity <= 1.0
  {
    if f.alive {
      var energy := Max(0.0, f.energy - BurnRate(f.intensity, radiant, pow18) * dt);
      var target := TargetIntensity(energy, expNeg);
      var w := Min(1.0, dt * 2.0);
      assert 0.0 <= target <= 1.0 && 0.0 <= w <= 1.0;
      assert 0.0 <= Lerp(f.intensity, target, w) <= 1.0;
    }
  }

  /** The step that empties the store puts the fire out with intensity zero. */
  lemma ExtinctionStep(f: Flame, dt: real, radiant: real, pow18: real -> real, expNeg: real -> real)
    requires f.alive
    ensures var r := FlameStep(f, dt, radiant, pow18, expNeg);
            r.energy == 0.0 <==> !r.alive && r.intensity == 0.0
  {
  }

  /** A fire that is out keeps its energy, stays out and has zero intensity. */
  lemma OutStaysOut(f: Flame, dt: real, radiant: real, pow18: real -> real, expNeg: real -> real)
    requires !f.alive
    ensures var r := FlameStep(f, dt, radiant, pow18, expNeg);
            !r.alive && r.energy == f.energy && r.intensity == 0.0
  {
  }

  /** n steps of the same length and radiant total. */
  function RunFlame(f: Flame, n: nat, dt: real, radiant: real, pow18: real -> real, expNeg: real -> real): Flame
    decreases n
  {
    if n == 0 then f else RunFlame(FlameStep(f, dt, radiant, pow18, expNeg), n - 1, dt, radiant, pow18, expNeg)
  }

  lemma {:induction false} RunOutStaysOut(f: Flame, n: nat, dt: real, radiant: real, pow18: real -> real, expNeg: real -> real)
    requires !f.alive
    ensures !RunFlame(f, n, dt, radiant, pow18, expNeg).alive
    decreases n
  {
    if n > 0 {
      RunOutStaysOut(FlameStep(f, dt, radiant, pow18, expNeg), n - 1, dt, radiant, pow18, expNeg);
    }
  }

  /**
   * Without new fuel a fire always goes out: after n >= 1 steps of dt > 0
   * with 12 * dt * n >= E, it is out, whatever the radiant total.
   */
  lemma {:induction false} BurnsOut(f: Flame, n: nat, dt: real, radiant: real, pow18: real -> real, expNeg: real -> real)
    requires IsPowerCurve(pow18) && IsDecay(expNeg)
    requires 0.0 <= f.intensity <= 1.0 && 0.0 <= radiant && 0.0 < dt
    requires 1 <= n && f.energy <= 12.0 * dt * n as real
    ensures !RunFlame(f, n, dt, radiant, pow18, expNeg).alive
    decreases n
  {
    var g := FlameStep(f, dt, radiant, pow18, expNeg);
    if !f.alive {
      RunOutStaysOut(f, n, dt, radiant, pow18, expNeg);
    } else if !g.alive {
      RunOutStaysOut(g, n - 1, dt, radiant, pow18, expNeg);
    } else {
      BurnLowersEnergy(f, dt, radiant, pow18, expNeg);
      IntensityStaysInUnit(f, dt, radiant, pow18, expNeg);
      assert g.energy <= f.energy - 12.0 * dt;
      assert 12.0 * dt * n as real - 12.0 * dt == 12.0 * dt * (n - 1) as real;
      assert n - 1 >= 1;
      BurnsOut(g, n - 1, dt, radiant, pow18, expNeg);
    }
  }

  /**
   * The particle count and new carry of one frame: n is the whole part of
   * 80 * intensity * dt + carry, and the fraction left over is carried.
   */
  function SpawnSplit(intensity: real, dt: real, carry: real): (r: (int, real))
    ensures r.0 as real + r.1 == 80.0 * intensity * dt + carry
    ensures 0.0 <= r.1 < 1.0
    ensures 0.0 <= intensity && 0.0 <= dt && 0.0 <= carry ==> 0 <= r.0
  {
    MulNonneg(80.0 * intensity, dt);
    var x := 80.0 * intensity * dt + carry;
    (Floor(x), x - Floor(x) as real)
  }

  /** Over consecutive frames no spawn is lost: the counts plus the final carry add up every frame's share. */
  lemma SpawnSplitAccumulates(i1: real, dt1: real, i2: real, dt2: real, carry: real)
    ensures var (n1, c1) := SpawnSplit(i1, dt1, carry);
            var (n2, c2) := SpawnSplit(i2, dt2, c1);
            n1 as real + n2 as real + c2 == 80.0 * i1 * dt1 + 80.0 * i2 * dt2 + carry
  {
  }

  /** The drawing surface the step is given. */
  datatype Canvas = Canvas(width: real, height: real, dpr: real)

  /**
   * The frame's random draws, one stream per consumer: the log ignition
   * rolls, the position and the body of each of the ten smoke puffs, each
   * spawned flame particle, and the particles' drift.
   */
  datatype StepDraws = StepDraws(
    coins: Draws,
    smokeAt: nat -> Draws,
    smokeBody: nat -> Draws,
    sparks: nat -> Draws,
    jitter: Draws)

  ghost predicate Fair(rnd: StepDraws)
  {
    && Uniform(rnd.coins) && Uniform(rnd.jitter)
    && (forall i: nat :: Uniform(rnd.smokeAt(i)))
    && (forall i: nat :: Uniform(rnd.smokeBody(i)))
    && (forall i: nat :: Uniform(rnd.sparks(i)))
  }

  /** Smoke puff i of the ten released when the fire goes out. */
  function DeathSmoke(canvas: Canvas, rnd: StepDraws, i: nat): (s: Smoke)
    requires Fair(rnd)
    ensures s.age == 0.0
    ensures canvas.width / 2.0 - 80.0 <= s.x < canvas.width / 2.0 + 80.0
  {
    var at := rnd.smokeAt(i);
    NewSmoke(canvas.width / 2.0 + (at(0) - 0.5) * 160.0, canvas.height * 0.78 - at(1) * 40.0, rnd.smokeBody(i))
  }

  function DeathSmokes(canvas: Canvas, rnd: StepDraws): (r: seq<Smoke>)
    requires Fair(rnd)
    ensures |r| == 10
  {
    seq(10, i requires 0 <= i => DeathSmoke(canvas, rnd, i))
  }

  /** The n particles spawned in one frame at the bottom centre of the canvas. */
  function NewParticles(n: int, canvas: Canvas, intensity: real, sparks: nat -> Draws): (r: seq<Particle>)
    requires forall i: nat :: Uniform(sparks(i))
    ensures |r| == if n < 0 then 0 else n
  {
    seq(if n < 0 then 0 else n, i requires 0 <= i => NewParticle(canvas.width / 2.0, canvas.height * 0.82, intensity, sparks(i)))
  }

  /** The ten smoke puffs of an extinction, appended one by one. */
  method SpawnDeathSmoke(st: State, canvas: Canvas, rnd: StepDraws)
    requires Fair(rnd)
    modifies st`smokes
    ensures st.smokes == old(st.smokes) + DeathSmokes(canvas, rnd)
  {
    var i := 0;
    while i < 10
      invariant 0 <= i <= 10
      invariant st.smokes == old(st.smokes) + DeathSmokes(canvas, rnd)[..i]
    {
      var at := rnd.smokeAt(i);
      SpawnSmoke(st, canvas.width / 2.0 + (at(0) - 0.5) * 160.0, canvas.height * 0.78 - at(1) * 40.0, rnd.smokeBody(i));
      assert DeathSmokes(canvas, rnd)[..i + 1] == DeathSmokes(canvas, rnd)[..i] + [DeathSmoke(canvas, rnd, i)];
      i := i + 1;
    }
  }

  /** The spawning block of the step: take the whole part of this frame's share, carry the rest. */
  method SpawnFlames(st: State, dt: real, canvas: Canvas, sparks: nat -> Draws)
    requires forall i: nat :: Uniform(sparks(i))
    modifies st`particles, st`spawnCarry
    ensures var (n, carry) := SpawnSplit(old(st.intensity), dt, old(st.spawnCarry));
            st.spawnCarry == carry && st.particles == old(st.particles) + NewParticles(n, canvas, st.intensity, sparks)
  {
    var split := SpawnSplit(st.intensity, dt, st.spawnCarry);
    var n := split.0;
    st.spawnCarry := split.1;
    var i := 0;
    while i < n
      invariant 0 <= i <= (if n < 0 then 0 else n)
      invariant st.spawnCarry == split.1
      invariant st.particles == old(st.particles) + NewParticles(n, canvas, st.intensity, sparks)[..i]
    {
      SpawnFireParticle(st, canvas.width / 2.0, canvas.height * 0.82, st.intensity, sparks(i));
      assert NewParticles(n, canvas, st.intensity, sparks)[..i + 1]
          == NewParticles(n, canvas, st.intensity, sparks)[..i] + [NewParticles(n, canvas, st.intensity, sparks)[i]];
      i := i + 1;
    }
    assert NewParticles(n, canvas, st.intensity, sparks)[..if n < 0 then 0 else n] == NewParticles(n, canvas, st.intensity, sparks);
  }

  /** Flame particles are spawned only while burning in 2D mode. */
  method SpawnPhase(st: State, dt: real, canvas: Canvas, sparks: nat -> Draws)
    requires forall i: nat :: Uniform(sparks(i))
    modifies st`particles, st`spawnCarry
    ensures var spawning := st.alive && !st.use3D;
            var (n, carry) := SpawnSplit(st.intensity, dt, old(st.spawnCarry));
            && st.spawnCarry == (if spawning then carry else old(st.spawnCarry))
            && st.particles == old(st.particles) + (if spawning then NewParticles(n, canvas, st.intensity, sparks) else [])
  {
    if st.alive && !st.use3D {
      SpawnFlames(st, dt, canvas, sparks);
    } else {
      assert st.particles + [] == st.particles;
    }
  }

  /** Whether the frame's radiant total comes from the 3D pile rather than the 2D logs. */
  predicate UsesOverride(use3D: bool, radiantOverride: Option<real>)
  {
    use3D && radiantOverride.Some?
  }

  /** The environment the 2D log simulation sees. */
  function FrameEnv(canvas: Canvas, intensity: real): Env
    requires canvas.dpr != 0.0
  {
    Env(AirTemp, canvas.width / canvas.dpr / 2.0, canvas.height / canvas.dpr * 0.82, intensity)
  }

  /** The radiant total of a frame of a burning fire: the 3D override, or the 2D pile's after layout. */
  function FrameRadiant(st0: seq<Log2D>, use3D: bool, radiantOverride: Option<real>, dt: real, canvas: Canvas,
                        intensity: real, expNeg: real -> real): real
    requires canvas.dpr != 0.0
  {
    var env := FrameEnv(canvas, intensity);
    if UsesOverride(use3D, radiantOverride) then radiantOverride.value
    else RadiantSum(Arranged(st0, env.fireX, env.baseY), dt, env, expNeg)
  }

  /** The 2D pile after a frame. */
  function FrameLogs(st0: seq<Log2D>, alive: bool, use3D: bool, radiantOverride: Option<real>, dt: real, canvas: Canvas,
                     intensity: real, expNeg: real -> real, coins: Draws): seq<Log2D>
    requires canvas.dpr != 0.0
  {
    var env := FrameEnv(canvas, intensity);
    if alive && !UsesOverride(use3D, radiantOverride) then ThermalPile(Arranged(st0, env.fireX, env.baseY), dt, env, expNeg, coins)
    else st0
  }

  /**
   * Over one frame the 2D pile keeps its length and a burning log stays
   * burning; with the fire out, or with the 3D override, the pile is left as it was.
   */
  lemma FrameLogsKeepsBurning(st0: seq<Log2D>, alive: bool, use3D: bool, radiantOverride: Option<real>, dt: real,
                              canvas: Canvas, intensity: real, expNeg: real -> real, coins: Draws)
    requires canvas.dpr != 0.0
    ensures var r := FrameLogs(st0, alive, use3D, radiantOverride, dt, canvas, intensity, expNeg, coins);
            && |r| == |st0|
            && (forall i :: 0 <= i < |st0| && st0[i].burning ==> r[i].burning)
            && (!alive || UsesOverride(use3D, radiantOverride) ==> r == st0)
  {
    var env := FrameEnv(canvas, intensity);
    if alive && !UsesOverride(use3D, radiantOverride) {
      var a := Arranged(st0, env.fireX, env.baseY);
      forall i | 0 <= i < |st0| && st0[i].burning
        ensures ThermalPile(a, dt, env, expNeg, coins)[i].burning
      {
        assert a[i].burning;
        ThermalPerLog(a, dt, env, expNeg, coins, i);
      }
    }
  }

  /**
   * The radiant total of a frame is the override when one applies; otherwise
   * it lies between 0 and 1.8 times the pile's total surface.
   */
  lemma FrameRadiantBounded(st0: seq<Log2D>, use3D: bool, radiantOverride: Option<real>, dt: real, canvas: Canvas,
                            intensity: real, expNeg: real -> real)
    requires canvas.dpr != 0.0
    requires forall k :: 0 <= k < |st0| ==> 0.0 <= st0[k].surface
    ensures var r := FrameRadiant(st0, use3D, radiantOverride, dt, canvas, intensity, expNeg);
            && (UsesOverride(use3D, radiantOverride) ==> r == radiantOverride.value)
            && (!UsesOverride(use3D, radiantOverride) ==> 0.0 <= r <= 1.8 * SurfaceSum(st0))
  {
    var env := FrameEnv(canvas, intensity);
    var a := Arranged(st0, env.fireX, env.baseY);
    ArrangedKeepsSurface(st0, env.fireX, env.baseY, |st0|);
    RadiantBounded(a, dt, env, expNeg);
  }

  /** The radiant total of a burning frame: from the 3D pile when given, else by laying out and heating the 2D pile. */
  method FrameHeat(st: State, dt: real, canvas: Canvas, radiantOverride: Option<real>, expNeg: real -> real, coins: Draws)
    returns (radiant: real)
    requires canvas.dpr != 0.0
    modifies st`logs
    ensures st.logs == FrameLogs(old(st.logs), true, st.use3D, radiantOverride, dt, canvas, st.intensity, expNeg, coins)
    ensures radiant == FrameRadiant(old(st.logs), st.use3D, radiantOverride, dt, canvas, st.intensity, expNeg)
  {
    var env := FrameEnv(canvas, st.intensity);
    if st.use3D && radiantOverride.Some? {
      radiant := radiantOverride.value;
    } else {
      LayoutLogs(st, env.fireX, env.baseY);
      radiant := SimulateLogThermal(st, dt, env, expNeg, coins);
    }
  }

  /** Burn energy, move the intensity toward its target, and put the fire out when the energy is gone. */
  method Burn(st: State, dt: real, radiant: real, pow18: real -> real, expNeg: real -> real)
    requires st.alive
    modifies st`energy, st`intensity, st`alive
    ensures Flame(st.alive, st.energy, st.intensity)
            == FlameStep(Flame(true, old(st.energy), old(st.intensity)), dt, radiant, pow18, expNeg)
  {
    var burnRate := 12.0 + pow18(st.intensity) * 70.0 + radiant * 4.0;
    assert burnRate == BurnRate(st.intensity, radiant, pow18);
    var energy := Max(0.0, st.energy - burnRate * dt);
    var target := TargetIntensity(energy, expNeg);
    var intensity := st.intensity + (target - st.intensity) * Min(1.0, dt * 2.0);
    assert intensity == Lerp(st.intensity, target, Min(1.0, dt * 2.0));
    assert FlameStep(Flame(true, st.energy, st.intensity), dt, radiant, pow18, expNeg)
        == if energy == 0.0 then Flame(false, energy, 0.0) else Flame(true, energy, intensity);
    st.energy := energy;
    st.intensity := intensity;
    if st.energy == 0.0 {
      st.alive := false;
      st.intensity := 0.0;
    }
  }

  /**
   * The first half of step: the burning branch (heat, burn, and ten smoke
   * puffs if the fire went out) or, for a fire that is out, zero intensity.
   */
  method FireBranch(st: State, dt: real, canvas: Canvas, radiantOverride: Option<real>,
                    pow18: real -> real, expNeg: real -> real, rnd: StepDraws)
    requires canvas.dpr != 0.0 && Fair(rnd)
    modifies st`logs, st`energy, st`intensity, st`alive, st`smokes
    ensures var radiant := FrameRadiant(old(st.logs), st.use3D, radiantOverride, dt, canvas, old(st.intensity), expNeg);
            Flame(st.alive, st.energy, st.intensity)
            == FlameStep(Flame(old(st.alive), old(st.energy), old(st.intensity)), dt, radiant, pow18, expNeg)
    ensures st.logs == FrameLogs(old(st.logs), old(st.alive), st.use3D, radiantOverride, dt, canvas, old(st.intensity), expNeg, rnd.coins)
    ensures st.smokes == old(st.smokes) + (if old(st.alive) && !st.alive then DeathSmokes(canvas, rnd) else [])
  {
    if st.alive {
      var radiant := FrameHeat(st, dt, canvas, radiantOverride, expNeg, rnd.coins);
      Burn(st, dt, radiant, pow18, expNeg);
      if st.energy == 0.0 {
        SpawnDeathSmoke(st, canvas, rnd);
      } else {
        assert st.smokes + [] == st.smokes;
      }
    } else {
      st.intensity := 0.0;
      assert st.smokes + [] == st.smokes;
    }
  }

  /** step up to the particle update: the fire branch, then the spawning block. */
  method FireAndSpawn(st: State, dt: real, canvas: Canvas, radiantOverride: Option<real>,
                      pow18: real -> real, expNeg: real -> real, rnd: StepDraws)
    requires canvas.dpr != 0.0 && Fair(rnd)
    modifies st`logs, st`energy, st`intensity, st`alive, st`smokes, st`particles, st`spawnCarry
    ensures var radiant := FrameRadiant(old(st.logs), st.use3D, radiantOverride, dt, canvas, old(st.intensity), expNeg);
            Flame(st.alive, st.energy, st.intensity)
            == FlameStep(Flame(old(st.alive), old(st.energy), old(st.intensity)), dt, radiant, pow18, expNeg)
    ensures st.logs == FrameLogs(old(st.logs), old(st.alive), st.use3D, radiantOverride, dt, canvas, old(st.intensity), expNeg, rnd.coins)
    ensures st.smokes == old(st.smokes) + (if old(st.alive) && !st.alive then DeathSmokes(canvas, rnd) else [])
    ensures var spawning := st.alive && !st.use3D;
            var (n, carry) := SpawnSplit(st.intensity, dt, old(st.spawnCarry));
            && st.spawnCarry == (if spawning then carry else old(st.spawnCarry))
            && st.particles == old(st.particles) + (if spawning then NewParticles(n, canvas, st.intensity, rnd.sparks) else [])
  {
    FireBranch(st, dt, canvas, radiantOverride, pow18, expNeg, rnd);
    SpawnPhase(st, dt, canvas, rnd.sparks);
  }

  /**
   * step(dtMs, canvas, radiantOverride): one frame. Returns what the HUD
   * shows afterwards. The particle lists are aged by the uncapped dtMs.
   */
  method Step(st: State, dtMs: real, canvas: Canvas, radiantOverride: Option<real>,
              pow18: real -> real, expNeg: real -> real, rnd: StepDraws) returns (hud: Hud)
    requires canvas.dpr != 0.0 && Fair(rnd)
    modifies st`logs, st`energy, st`intensity, st`alive, st`smokes, st`particles, st`spawnCarry
    ensures var dt := DtSeconds(dtMs);
            var radiant := FrameRadiant(old(st.logs), st.use3D, radiantOverride, dt, canvas, old(st.intensity), expNeg);
            Flame(st.alive, st.energy, st.intensity)
            == FlameStep(Flame(old(st.alive), old(st.energy), old(st.intensity)), dt, radiant, pow18, expNeg)
    ensures st.logs == FrameLogs(old(st.logs), old(st.alive), st.use3D, radiantOverride, DtSeconds(dtMs), canvas,
                                 old(st.intensity), expNeg, rnd.coins)
    ensures var wentOut := old(st.alive) && !st.alive;
            st.smokes == StepSmokesFrom(old(st.smokes) + (if wentOut then DeathSmokes(canvas, rnd) else []), 0, dtMs)
    ensures var spawning := st.alive && !st.use3D;
            var (n, carry) := SpawnSplit(st.intensity, DtSeconds(dtMs), old(st.spawnCarry));
            && st.spawnCarry == (if spawning then carry else old(st.spawnCarry))
            && st.particles == StepParticlesFrom(old(st.particles) + (if spawning then NewParticles(n, canvas, st.intensity, rnd.sparks) else []),
                                                 0, dtMs, rnd.jitter)
    ensures hud == UpdateHud(EnergyToSeconds(st.energy), st.intensity)
  {
    var dt := DtSeconds(dtMs);
    FireAndSpawn(st, dt, canvas, radiantOverride, pow18, expNeg, rnd);
    UpdateParticles(st, dtMs, rnd.jitter);
    hud := UpdateHud(EnergyToSeconds(st.energy), st.intensity);
  }
}
