/**
 * The fixed pool of 3D flame sprites (src/flame3d.js). A sprite is never
 * created or destroyed after initialisation: spawning makes the first
 * invisible slot visible, ageing hides it again. Times are in seconds.
 */
module Flame3D {
  import opened FireMath

  /** The pool's size. */
  const PoolSize: nat := 320

  /** Per-tick multiplier of the horizontal velocity. */
  const Drag: real := 0.96

  /** A sprite's state: its visibility, transform, material opacity and userData. */
  datatype Sprite = Sprite(
    visible: bool,
    pos: Vec3,
    age: real,
    life: real,
    vel: Vec3,
    startSize: real,
    opacity: real,
    scaleX: real,
    scaleY: real)

  /** makeSprite: hidden, age 0, life 1, still, start size 10, transparent, unit scale. */
  const Blank: Sprite := Sprite(false, Vec3(0.0, 0.0, 0.0), 0.0, 1.0, Vec3(0.0, 0.0, 0.0), 10.0, 0.0, 1.0, 1.0)

  /** The result of pool.find(p => !p.visible). */
  datatype Slot = Free(index: nat) | Full

  /** The first invisible slot at index k or later. */
  function FirstInvisibleFrom(ss: seq<Sprite>, k: nat): (r: Slot)
    ensures r.Free? ==> k <= r.index < |ss| && !ss[r.index].visible
                        && forall j :: k <= j < r.index ==> ss[j].visible
    ensures r.Full? ==> forall j :: k <= j < |ss| ==> ss[j].visible
    decreases |ss| - k
  {
    if k >= |ss| then Full
    else if !ss[k].visible then Free(k)
    else FirstInvisibleFrom(ss, k + 1)
  }

  /** pool.find(p => !p.visible): the lowest-index invisible sprite, or none. */
  function FirstInvisible(ss: seq<Sprite>): (r: Slot)
    ensures r.Free? <==> exists j :: 0 <= j < |ss| && !ss[j].visible
    ensures r.Free? ==> r.index < |ss| && !ss[r.index].visible && forall j :: 0 <= j < r.index ==> ss[j].visible
  {
    FirstInvisibleFrom(ss, 0)
  }

  /** How many sprites are visible. */
  function VisibleCount(ss: seq<Sprite>): (r: nat)
    ensures r <= |ss|
  {
    if ss == [] then 0 else (if ss[0].visible then 1 else 0) + VisibleCount(ss[1..])
  }

  /** Every sprite is visible exactly when the visible count is the pool's length. */
  lemma {:induction false} AllVisibleIffFull(ss: seq<Sprite>)
    ensures VisibleCount(ss) == |ss| <==> forall j :: 0 <= j < |ss| ==> ss[j].visible
  {
    if ss != [] {
      AllVisibleIffFull(ss[1..]);
      if forall j :: 0 <= j < |ss| ==> ss[j].visible {
        assert forall j :: 0 <= j < |ss[1..]| ==> ss[1..][j].visible by {
          forall j | 0 <= j < |ss[1..]| ensures ss[1..][j].visible {
            assert ss[1..][j] == ss[j + 1];
          }
        }
      } else if ss[0].visible {
        var j :| 0 <= j < |ss| && !ss[j].visible;
        assert ss[1..][j - 1] == ss[j];
      }
    }
  }

  lemma {:induction false} VisibleCountUpdate(ss: seq<Sprite>, i: nat, s: Sprite)
    requires i < |ss|
    ensures VisibleCount(ss[i := s]) ==
            VisibleCount(ss) - (if ss[i].visible then 1 else 0) + (if s.visible then 1 else 0)
  {
    if i > 0 {
      VisibleCountUpdate(ss[1..], i - 1, s);
      assert ss[i := s][1..] == ss[1..][i - 1 := s];
    } else {
      assert ss[i := s][1..] == ss[1..];
    }
  }

  /**
   * The sprite spawn(cx, cy, cz, intensity) puts in the free slot; draws:
   * position x, y, z, life, start size, velocity x, y, z.
   */
  function NewSprite(cx: real, cy: real, cz: real, intensity: real, d: Draws): (s: Sprite)
    requires Uniform(d)
    ensures s.visible && s.age == 0.0 && s.opacity == 0.0
    ensures 0.6 <= s.life < 1.8
    ensures cx - 10.0 <= s.pos.x < cx + 10.0 && cy - 5.0 <= s.pos.y < cy + 3.0 && cz - 10.0 <= s.pos.z < cz + 10.0
    ensures 0.0 <= intensity ==> 12.0 <= s.startSize && 18.0 <= s.vel.y
    ensures s.scaleX == s.startSize && s.scaleY == s.startSize * 1.6
  {
    var startSize := 12.0 + d(4) * 28.0 * Max(0.6, intensity);
    MulNonneg(d(4) * 28.0, Max(0.6, intensity));
    MulNonneg(d(6), 40.0);
    var spread := 4.0 + 20.0 * intensity;
    Sprite(
      visible := true,
      pos := Vec3(cx + (d(0) - 0.5) * 20.0, cy + (d(1) * 8.0 - 5.0), cz + (d(2) - 0.5) * 20.0),
      age := 0.0,
      life := 0.6 + d(3) * 1.2,
      vel := Vec3((d(5) - 0.5) * spread, 18.0 + d(6) * 40.0 + 60.0 * intensity, (d(7) - 0.5) * spread),
      startSize := startSize,
      opacity := 0.0,
      scaleX := startSize,
      scaleY := startSize * 1.6)
  }

  /** The pool after one spawn: the first free slot gets a new sprite; a full pool is left alone. */
  function Spawned(ss: seq<Sprite>, cx: real, cy: real, cz: real, intensity: real, d: Draws): seq<Sprite>
    requires Uniform(d)
  {
    match FirstInvisible(ss)
    case Full => ss
    case Free(i) => ss[i := NewSprite(cx, cy, cz, intensity, d)]
  }

  /**
   * One spawn touches only the lowest-index hidden sprite and raises the
   * visible count by one; with every sprite visible it changes nothing.
   */
  lemma SpawnedSpec(ss: seq<Sprite>, cx: real, cy: real, cz: real, intensity: real, d: Draws)
    requires Uniform(d)
    ensures var r := Spawned(ss, cx, cy, cz, intensity, d);
            && |r| == |ss|
            && (VisibleCount(ss) == |ss| ==> r == ss)
            && (VisibleCount(ss) < |ss| ==> VisibleCount(r) == VisibleCount(ss) + 1)
            && (forall j :: 0 <= j < |ss| && r[j] != ss[j] ==>
                  !ss[j].visible && r[j].visible && forall k :: 0 <= k < j ==> ss[k].visible)
  {
    AllVisibleIffFull(ss);
    match FirstInvisible(ss)
    case Full =>
    case Free(i) =>
      VisibleCountUpdate(ss, i, NewSprite(cx, cy, cz, intensity, d));
  }

  /** The spawns number k, k+1, ..., n-1 of a tick, spawn j using draws ds(j). */
  function SpawnedFrom(ss: seq<Sprite>, k: nat, n: int, intensity: real, ds: nat -> Draws): (r: seq<Sprite>)
    requires forall j: nat :: Uniform(ds(j))
    ensures |r| == |ss|
    decreases n - k
  {
    if k >= n then ss else SpawnedFrom(Spawned(ss, 0.0, 40.0, 0.0, intensity, ds(k)), k + 1, n, intensity, ds)
  }

  /** The spawns of a tick only reveal sprites that were hidden; every other sprite is left as it was. */
  lemma {:induction false} SpawnedFromTouchesOnlyHidden(ss: seq<Sprite>, k: nat, n: int, intensity: real, ds: nat -> Draws)
    requires forall j: nat :: Uniform(ds(j))
    ensures var r := SpawnedFrom(ss, k, n, intensity, ds);
            forall j :: 0 <= j < |ss| && r[j] != ss[j] ==> !ss[j].visible && r[j].visible
    decreases n - k
  {
    if k < n {
      var s1 := Spawned(ss, 0.0, 40.0, 0.0, intensity, ds(k));
      SpawnedSpec(ss, 0.0, 40.0, 0.0, intensity, ds(k));
      SpawnedFromTouchesOnlyHidden(s1, k + 1, n, intensity, ds);
    }
  }

  /** n spawns fill min(n, free slots) slots: the visible count is capped by the pool's size. */
  lemma {:induction false} SpawnedFromCount(ss: seq<Sprite>, k: nat, n: int, intensity: real, ds: nat -> Draws)
    requires forall j: nat :: Uniform(ds(j))
    ensures var extra := if k <= n then n - k else 0;
            VisibleCount(SpawnedFrom(ss, k, n, intensity, ds)) == Min((VisibleCount(ss) + extra) as real, |ss| as real) as int
    decreases n - k
  {
    if k < n {
      var s1 := Spawned(ss, 0.0, 40.0, 0.0, intensity, ds(k));
      SpawnedSpec(ss, 0.0, 40.0, 0.0, intensity, ds(k));
      SpawnedFromCount(s1, k + 1, n, intensity, ds);
    }
  }

  /** Math.floor(120 * intensity * dt): spawns attempted this tick, with no carry. */
  function SpawnCount(intensity: real, dt: real): (n: int)
    ensures n as real <= 120.0 * intensity * dt < n as real + 1.0
    ensures 0.0 <= intensity && 0.0 <= dt ==> 0 <= n
    ensures intensity == 0.0 || dt == 0.0 ==> n == 0
  {
    MulNonneg(120.0 * intensity, dt);
    Floor(120.0 * intensity * dt)
  }

  /**
   * One sprite's update: a hidden sprite is skipped; otherwise it ages by
   * dt and is hidden once its age reaches its life, or else it moves by its
   * old velocity, its horizontal velocity is damped, it is pushed upward,
   * and it fades and shrinks with t = age / life.
   */
  function AgeSprite(s: Sprite, dt: real): (r: Sprite)
    requires s.life > 0.0
    ensures r.life == s.life && r.startSize == s.startSize
    ensures !s.visible ==> r == s
    ensures r.visible ==> s.visible && r.age == s.age + dt && r.age < r.life
    ensures s.visible && !r.visible ==> r.age == s.age + dt && r.age >= r.life
    ensures r.visible ==> r.vel == Vec3(s.vel.x * Drag, s.vel.y + 10.0 * dt, s.vel.z * Drag)
    ensures r.visible ==> r.pos == Vec3(s.pos.x + s.vel.x * dt, s.pos.y + s.vel.y * dt, s.pos.z + s.vel.z * dt)
    ensures r.visible ==> 0.0 <= r.opacity && (0.0 <= r.age ==> r.opacity <= 1.0)
    ensures r.visible ==> r.opacity == Max(0.0, 1.0 - r.age / r.life)
    ensures r.visible ==> r.scaleX == r.startSize * (1.0 - r.age / r.life * 0.5)
    ensures r.visible ==> r.scaleY == r.startSize * (1.6 - r.age / r.life * 1.2)
  {
    if !s.visible then s
    else
      var age := s.age + dt;
      if age >= s.life then s.(age := age, visible := false)
      else
        var t := age / s.life;
        QuotientBounds(-age, s.life);
        s.(age := age,
           pos := Vec3(s.pos.x + s.vel.x * dt, s.pos.y + s.vel.y * dt, s.pos.z + s.vel.z * dt),
           vel := Vec3(s.vel.x * Drag, s.vel.y + 10.0 * dt, s.vel.z * Drag),
           opacity := Max(0.0, 1.0 - t),
           scaleX := s.startSize * (1.0 - t * 0.5),
           scaleY := s.startSize * (1.6 - t * 1.2))
  }

  predicate LivesPositive(ss: seq<Sprite>)
  {
    forall j :: 0 <= j < |ss| ==> ss[j].life > 0.0
  }

  /** The ageing pass over the whole pool. */
  function Aged(ss: seq<Sprite>, dt: real): (r: seq<Sprite>)
    requires LivesPositive(ss)
    ensures |r| == |ss| && LivesPositive(r)
  {
    seq(|ss|, j requires 0 <= j < |ss| => AgeSprite(ss[j], dt))
  }

  /**
   * After the ageing pass every visible sprite is younger than its life,
   * no sprite becomes visible, and hidden sprites are untouched.
   */
  lemma AgedSpec(ss: seq<Sprite>, dt: real)
    requires LivesPositive(ss)
    ensures var r := Aged(ss, dt);
            && (forall j :: 0 <= j < |r| && r[j].visible ==> r[j].age < r[j].life)
            && (forall j :: 0 <= j < |r| && !ss[j].visible ==> r[j] == ss[j])
            && VisibleCount(r) <= VisibleCount(ss)
  {
    AgedCount(ss, Aged(ss, dt), dt);
  }

  lemma {:induction false} AgedCount(ss: seq<Sprite>, r: seq<Sprite>, dt: real)
    requires LivesPositive(ss) && |r| == |ss|
    requires forall j :: 0 <= j < |ss| ==> r[j] == AgeSprite(ss[j], dt)
    ensures VisibleCount(r) <= VisibleCount(ss)
  {
    if ss != [] {
      assert r[0] == AgeSprite(ss[0], dt);
      AgedCount(ss[1..], r[1..], dt);
    }
  }

  /** Spawning keeps every life positive: a spawned life is at least 0.6. */
  lemma {:induction false} SpawnedFromLives(ss: seq<Sprite>, k: nat, n: int, intensity: real, ds: nat -> Draws)
    requires forall j: nat :: Uniform(ds(j))
    requires LivesPositive(ss)
    ensures LivesPositive(SpawnedFrom(ss, k, n, intensity, ds))
    decreases n - k
  {
    if k < n {
      SpawnedFromLives(Spawned(ss, 0.0, 40.0, 0.0, intensity, ds(k)), k + 1, n, intensity, ds);
    }
  }

  /** The module-level `group` (as a ready flag) and `pool`. */
  class FlamePool {
    var ready: bool
    var sprites: seq<Sprite>

    /** Before init the pool is empty; after it, it holds exactly PoolSize sprites, each with a positive life. */
    predicate Valid()
      reads this
    {
      (ready ==> |sprites| == PoolSize) && (!ready ==> sprites == []) && LivesPositive(sprites)
    }

    constructor ()
      ensures Valid() && !ready
    {
      ready := false;
      sprites := [];
    }

    /** initFlame3D: fill the pool with PoolSize hidden sprites, once; later calls return early. */
    method InitFlame3D()
      requires Valid()
      modifies this
      ensures Valid() && ready
      ensures old(ready) ==> sprites == old(sprites)
      ensures !old(ready) ==> sprites == seq(PoolSize, _ => Blank) && VisibleCount(sprites) == 0
    {
      if ready {
        return;
      }
      ready := true;
      var i := 0;
      while i < PoolSize
        invariant 0 <= i <= PoolSize
        invariant ready && sprites == seq(i, _ => Blank)
      {
        sprites := sprites + [Blank];
        i := i + 1;
      }
      BlankCount(sprites);
    }

    /** pool.find(p => !p.visible) as a scan from the front. */
    method FindFree() returns (slot: Slot)
      ensures slot == FirstInvisible(sprites)
    {
      var i := 0;
      while i < |sprites|
        invariant 0 <= i <= |sprites|
        invariant FirstInvisible(sprites) == FirstInvisibleFrom(sprites, i)
      {
        if !sprites[i].visible {
          return Free(i);
        }
        i := i + 1;
      }
      return Full;
    }

    /** spawn(cx, cy, cz, intensity): show and initialise the first hidden sprite, if any. */
    method Spawn(cx: real, cy: real, cz: real, intensity: real, d: Draws)
      requires Uniform(d)
      modifies this`sprites
      ensures sprites == Spawned(old(sprites), cx, cy, cz, intensity, d)
    {
      var slot := FindFree();
      if slot.Full? {
        return;
      }
      sprites := sprites[slot.index := NewSprite(cx, cy, cz, intensity, d)];
    }

    /**
     * updateFlame3D(dt, intensity): nothing before init; otherwise
     * SpawnCount(intensity, dt) spawns at (0, 40, 0), then the ageing pass.
     */
    method UpdateFlame3D(dt: real, intensity: real, ds: nat -> Draws)
      requires Valid()
      requires forall j: nat :: Uniform(ds(j))
      modifies this`sprites
      ensures Valid()
      ensures !ready ==> sprites == old(sprites)
      ensures ready ==> LivesPositive(SpawnedFrom(old(sprites), 0, SpawnCount(intensity, dt), intensity, ds))
                        && sprites == Aged(SpawnedFrom(old(sprites), 0, SpawnCount(intensity, dt), intensity, ds), dt)
    {
      if !ready {
        return;
      }
      var n := SpawnCount(intensity, dt);
      ghost var pre := sprites;
      var i := 0;
      while i < n
        invariant 0 <= i && (0 <= n ==> i <= n)
        invariant |sprites| == PoolSize
        invariant SpawnedFrom(pre, 0, n, intensity, ds) == SpawnedFrom(sprites, i, n, intensity, ds)
      {
        Spawn(0.0, 40.0, 0.0, intensity, ds(i));
        i := i + 1;
      }
      SpawnedFromLives(pre, 0, n, intensity, ds);
      ghost var spawned := sprites;
      assert spawned == SpawnedFrom(pre, 0, n, intensity, ds);
      var k := 0;
      while k < |sprites|
        invariant 0 <= k <= |sprites| == |spawned|
        invariant forall j :: 0 <= j < k ==> sprites[j] == AgeSprite(spawned[j], dt)
        invariant forall j :: k <= j < |sprites| ==> sprites[j] == spawned[j]
      {
        sprites := sprites[k := AgeSprite(sprites[k], dt)];
        k := k + 1;
      }
      assert sprites == Aged(spawned, dt);
    }
  }

  lemma {:induction false} BlankCount(ss: seq<Sprite>)
    requires forall j :: 0 <= j < |ss| ==> ss[j] == Blank
    ensures VisibleCount(ss) == 0
  {
    if ss != [] {
      BlankCount(ss[1..]);
    }
  }

  /**
   * A tick of updateFlame3D after init: the pool keeps its size, at most
   * PoolSize sprites are visible, every visible sprite is younger than its
   * life, the spawns only reveal hidden sprites, and a sprite that was
   * hidden and not spawned this tick is untouched. (A sprite spawned and
   * aged out in the same tick, when dt reaches its life, is hidden again
   * but no longer the same.)
   */
  lemma FlameTickSpec(ss: seq<Sprite>, dt: real, intensity: real, ds: nat -> Draws)
    requires forall j: nat :: Uniform(ds(j))
    requires |ss| == PoolSize && LivesPositive(ss)
    ensures var n := SpawnCount(intensity, dt);
            LivesPositive(SpawnedFrom(ss, 0, n, intensity, ds)) &&
            var r := Aged(SpawnedFrom(ss, 0, n, intensity, ds), dt);
            && |r| == PoolSize
            && VisibleCount(r) <= PoolSize
            && VisibleCount(r) <= VisibleCount(ss) + (if n < 0 then 0 else n)
            && (forall j :: 0 <= j < PoolSize && r[j].visible ==> r[j].age < r[j].life)
    ensures var s1 := SpawnedFrom(ss, 0, SpawnCount(intensity, dt), intensity, ds);
            && (forall j :: 0 <= j < PoolSize && s1[j] != ss[j] ==> !ss[j].visible && s1[j].visible)
            && (forall j :: 0 <= j < PoolSize && s1[j] == ss[j] && !ss[j].visible ==> Aged(s1, dt)[j] == ss[j])
  {
    var n := SpawnCount(intensity, dt);
    SpawnedFromLives(ss, 0, n, intensity, ds);
    var s1 := SpawnedFrom(ss, 0, n, intensity, ds);
    SpawnedFromCount(ss, 0, n, intensity, ds);
    SpawnedFromTouchesOnlyHidden(ss, 0, n, intensity, ds);
    AgedSpec(s1, dt);
  }
}
