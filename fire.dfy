/** The 2D flame particles and smoke puffs (src/fire.js); ages and lives are in milliseconds. */
module Fire {
  import opened FireMath
  import opened FireState

  /** The particle spawnFireParticle pushes; draws: life, size, vx, vy, seed, x, y. */
  function NewParticle(cx: real, baseY: real, intensity: real, d: Draws): (p: Particle)
    requires Uniform(d)
    ensures p.age == 0.0
    ensures 600.0 <= p.life < 1700.0
    ensures cx - 15.0 <= p.x < cx + 15.0 && baseY - 6.0 <= p.y < baseY + 2.0
    ensures 0.0 <= intensity ==> p.vy < 0.0
  {
    var life := 600.0 + d(0) * 1100.0;
    var size := 8.0 + d(1) * 28.0 * Max(0.6, intensity);
    var vx := (d(2) - 0.5) * (10.0 + 30.0 * intensity);
    var vy := -(30.0 + d(3) * 90.0) * (0.6 + intensity);
    MulNonneg(30.0 + d(3) * 90.0, intensity);
    Particle(x := cx + (d(5) - 0.5) * 30.0, y := baseY + (d(6) * 8.0 - 6.0), vx := vx, vy := vy,
             life := life, age := 0.0, size := size, seed := d(4))
  }

  /** spawnFireParticle(cx, baseY, intensity): append exactly one new particle. */
  method SpawnFireParticle(st: State, cx: real, baseY: real, intensity: real, d: Draws)
    requires Uniform(d)
    modifies st`particles
    ensures st.particles == old(st.particles) + [NewParticle(cx, baseY, intensity, d)]
  {
    st.particles := st.particles + [NewParticle(cx, baseY, intensity, d)];
  }

  /** The puff spawnSmoke pushes; draws: vx, vy, life, size. */
  function NewSmoke(x: real, y: real, d: Draws): (s: Smoke)
    requires Uniform(d)
    ensures s.age == 0.0 && s.x == x && s.y == y
    ensures 1200.0 <= s.life < 3200.0
    ensures -40.0 < s.vy <= -20.0
    ensures -6.0 <= s.vx < 6.0
  {
    Smoke(x := x, y := y, vx := (d(0) - 0.5) * 12.0, vy := -20.0 - d(1) * 20.0, age := 0.0,
          life := 1200.0 + d(2) * 2000.0, size := 18.0 + d(3) * 30.0)
  }

  /** spawnSmoke(x, y): append exactly one new puff. */
  method SpawnSmoke(st: State, x: real, y: real, d: Draws)
    requires Uniform(d)
    modifies st`smokes
    ensures st.smokes == old(st.smokes) + [NewSmoke(x, y, d)]
  {
    st.smokes := st.smokes + [NewSmoke(x, y, d)];
  }

  // ---------------------------------------------------------------- updateParticles

  /** An element survives a tick of dt unless its age would then exceed its life. */
  predicate Survives(age: real, life: real, dt: real)
  {
    !(age + dt > life)
  }

  /** A surviving particle's motion: `jit` is its Math.random() drift draw. */
  function AdvanceParticle(p: Particle, dt: real, jit: real): (r: Particle)
    ensures r.age == p.age + dt && r.life == p.life && r.size == p.size && r.seed == p.seed
    ensures r.vy == p.vy - 6.0 * dt / 1000.0
    ensures r.x == p.x + r.vx * dt / 1000.0 && r.y == p.y + r.vy * dt / 1000.0
  {
    var vx := p.vx + (jit - 0.5) * 6.0 * dt / 1000.0;
    var vy := p.vy + -6.0 * dt / 1000.0;
    p.(age := p.age + dt, vx := vx, vy := vy, x := p.x + vx * dt / 1000.0, y := p.y + vy * dt / 1000.0)
  }

  /** A surviving puff drifts at constant velocity. */
  function AdvanceSmoke(s: Smoke, dt: real): (r: Smoke)
    ensures r.age == s.age + dt && r.life == s.life && r.vx == s.vx && r.vy == s.vy && r.size == s.size
    ensures r.x == s.x + s.vx * dt / 1000.0 && r.y == s.y + s.vy * dt / 1000.0
  {
    s.(age := s.age + dt, x := s.x + s.vx * dt / 1000.0, y := s.y + s.vy * dt / 1000.0)
  }

  /** The particles from index k on after the update; `jit(j)` is particle j's drift draw. */
  function StepParticlesFrom(ps: seq<Particle>, k: nat, dt: real, jit: Draws): seq<Particle>
    decreases |ps| - k
  {
    if k >= |ps| then []
    else (if Survives(ps[k].age, ps[k].life, dt) then [AdvanceParticle(ps[k], dt, jit(k))] else [])
         + StepParticlesFrom(ps, k + 1, dt, jit)
  }

  function StepSmokesFrom(ss: seq<Smoke>, k: nat, dt: real): seq<Smoke>
    decreases |ss| - k
  {
    if k >= |ss| then []
    else (if Survives(ss[k].age, ss[k].life, dt) then [AdvanceSmoke(ss[k], dt)] else [])
         + StepSmokesFrom(ss, k + 1, dt)
  }

  /** The indices j >= k whose elements satisfy keep, in increasing order. */
  function Kept<T>(s: seq<T>, keep: T -> bool, k: nat): seq<nat>
    decreases |s| - k
  {
    if k >= |s| then [] else (if keep(s[k]) then [k] else []) + Kept(s, keep, k + 1)
  }

  /**
   * Kept lists exactly the indices from k on whose elements satisfy keep,
   * each once, in increasing order.
   */
  lemma {:induction false} KeptIsFilter<T>(s: seq<T>, keep: T -> bool, k: nat)
    ensures forall j :: j in Kept(s, keep, k) <==> k <= j < |s| && keep(s[j])
    ensures forall a, b :: 0 <= a < b < |Kept(s, keep, k)| ==> Kept(s, keep, k)[a] < Kept(s, keep, k)[b]
    ensures |Kept(s, keep, k)| <= if k <= |s| then |s| - k else 0
    decreases |s| - k
  {
    if k < |s| {
      KeptIsFilter(s, keep, k + 1);
      var rest := Kept(s, keep, k + 1);
      assert forall b :: 0 <= b < |rest| ==> rest[b] in rest;
    }
  }

  function ParticleKeep(dt: real): Particle -> bool
  {
    (p: Particle) => Survives(p.age, p.life, dt)
  }

  function SmokeKeep(dt: real): Smoke -> bool
  {
    (s: Smoke) => Survives(s.age, s.life, dt)
  }

  /** The update is a filter followed by a map: survivor m is the m-th kept particle, advanced. */
  lemma {:induction false} StepParticlesIsFilterMap(ps: seq<Particle>, k: nat, dt: real, jit: Draws)
    ensures var r, K := StepParticlesFrom(ps, k, dt, jit), Kept(ps, ParticleKeep(dt), k);
            |r| == |K| && forall m :: 0 <= m < |r| ==> K[m] < |ps| && r[m] == AdvanceParticle(ps[K[m]], dt, jit(K[m]))
    decreases |ps| - k
  {
    if k < |ps| {
      StepParticlesIsFilterMap(ps, k + 1, dt, jit);
      KeptIsFilter(ps, ParticleKeep(dt), k + 1);
    }
  }

  lemma {:induction false} StepSmokesIsFilterMap(ss: seq<Smoke>, k: nat, dt: real)
    ensures var r, K := StepSmokesFrom(ss, k, dt), Kept(ss, SmokeKeep(dt), k);
            |r| == |K| && forall m :: 0 <= m < |r| ==> K[m] < |ss| && r[m] == AdvanceSmoke(ss[K[m]], dt)
    decreases |ss| - k
  {
    if k < |ss| {
      StepSmokesIsFilterMap(ss, k + 1, dt);
      KeptIsFilter(ss, SmokeKeep(dt), k + 1);
    }
  }

  /**
   * What updateParticles does to the particle list: the removed particles
   * are exactly those whose age + dt exceeds their life; the survivors keep
   * their order, age by exactly dt and end with age <= life; the list never grows.
   */
  lemma ParticleUpdateSpec(ps: seq<Particle>, dt: real, jit: Draws)
    ensures var r, K := StepParticlesFrom(ps, 0, dt, jit), Kept(ps, ParticleKeep(dt), 0);
            && |r| == |K| <= |ps|
            && (forall j :: j in K <==> 0 <= j < |ps| && ps[j].age + dt <= ps[j].life)
            && (forall a, b :: 0 <= a < b < |K| ==> K[a] < K[b])
            && (forall m :: 0 <= m < |r| ==> K[m] < |ps| && r[m].age == ps[K[m]].age + dt && r[m].age <= r[m].life)
  {
    StepParticlesIsFilterMap(ps, 0, dt, jit);
    KeptIsFilter(ps, ParticleKeep(dt), 0);
    var K := Kept(ps, ParticleKeep(dt), 0);
    forall m | 0 <= m < |K|
      ensures ps[K[m]].age + dt <= ps[K[m]].life
    {
      assert K[m] in K;
    }
  }

  /** The same for smoke, whose velocity never changes and whose position advances by v * dt / 1000. */
  lemma SmokeUpdateSpec(ss: seq<Smoke>, dt: real)
    ensures var r, K := StepSmokesFrom(ss, 0, dt), Kept(ss, SmokeKeep(dt), 0);
            && |r| == |K| <= |ss|
            && (forall j :: j in K <==> 0 <= j < |ss| && ss[j].age + dt <= ss[j].life)
            && (forall a, b :: 0 <= a < b < |K| ==> K[a] < K[b])
            && (forall m :: 0 <= m < |r| ==>
                  K[m] < |ss| && r[m].age == ss[K[m]].age + dt && r[m].age <= r[m].life
                  && r[m].vx == ss[K[m]].vx && r[m].vy == ss[K[m]].vy
                  && r[m].x == ss[K[m]].x + ss[K[m]].vx * dt / 1000.0)
  {
    StepSmokesIsFilterMap(ss, 0, dt);
    KeptIsFilter(ss, SmokeKeep(dt), 0);
    var K := Kept(ss, SmokeKeep(dt), 0);
    forall m | 0 <= m < |K|
      ensures ss[K[m]].age + dt <= ss[K[m]].life
    {
      assert K[m] in K;
    }
  }

  /** The particle half of updateParticles: a backwards walk that splices out expired particles. */
  method UpdateParticleList(st: State, dt: real, jit: Draws)
    modifies st`particles
    ensures st.particles == StepParticlesFrom(old(st.particles), 0, dt, jit)
  {
    ghost var ps := st.particles;
    var i := |st.particles| - 1;
    while i >= 0
      invariant -1 <= i < |ps|
      invariant st.particles == ps[..i + 1] + StepParticlesFrom(ps, i + 1, dt, jit)
    {
      var p := st.particles[i];
      assert p == ps[i];
      p := p.(age := p.age + dt);
      if p.age > p.life {
        st.particles := st.particles[..i] + st.particles[i + 1..];
        assert ps[..i + 1] == ps[..i] + [ps[i]];
      } else {
        var vx := p.vx + (jit(i) - 0.5) * 6.0 * dt / 1000.0;
        var vy := p.vy + -6.0 * dt / 1000.0;
        p := p.(vx := vx, vy := vy);
        p := p.(x := p.x + p.vx * dt / 1000.0, y := p.y + p.vy * dt / 1000.0);
        assert p == AdvanceParticle(ps[i], dt, jit(i));
        st.particles := st.particles[..i] + [p] + st.particles[i + 1..];
        assert ps[..i + 1] == ps[..i] + [ps[i]];
      }
      i := i - 1;
    }
    assert ps[..0] == [];
  }

  /** The smoke half of updateParticles. */
  method UpdateSmokeList(st: State, dt: real)
    modifies st`smokes
    ensures st.smokes == StepSmokesFrom(old(st.smokes), 0, dt)
  {
    ghost var ss := st.smokes;
    var i := |st.smokes| - 1;
    while i >= 0
      invariant -1 <= i < |ss|
      invariant st.smokes == ss[..i + 1] + StepSmokesFrom(ss, i + 1, dt)
    {
      var s := st.smokes[i];
      assert s == ss[i];
      s := s.(age := s.age + dt);
      if s.age > s.life {
        st.smokes := st.smokes[..i] + st.smokes[i + 1..];
        assert ss[..i + 1] == ss[..i] + [ss[i]];
      } else {
        s := s.(x := s.x + s.vx * dt / 1000.0, y := s.y + s.vy * dt / 1000.0);
        assert s == AdvanceSmoke(ss[i], dt);
        st.smokes := st.smokes[..i] + [s] + st.smokes[i + 1..];
        assert ss[..i + 1] == ss[..i] + [ss[i]];
      }
      i := i - 1;
    }
    assert ss[..0] == [];
  }

  /** updateParticles(dt): age and move both lists, dropping what has expired. */
  method UpdateParticles(st: State, dt: real, jit: Draws)
    modifies st`particles, st`smokes
    ensures st.particles == StepParticlesFrom(old(st.particles), 0, dt, jit)
    ensures st.smokes == StepSmokesFrom(old(st.smokes), 0, dt)
  {
    UpdateParticleList(st, dt, jit);
    UpdateSmokeList(st, dt);
  }
}
