/** Small numeric helpers shared by the simulation (src/math.js), with reals for IEEE doubles. */
module FireMath {

  /** Math.PI, written out to the precision of a double. */
  const Pi: real := 3.141592653589793

  /** Energy units per listed second of fuel. */
  const EnergyScale: real := 30.0

  function Min(a: real, b: real): real { if a <= b then a else b }

  function Max(a: real, b: real): real { if a >= b then a else b }

  /** Math.floor on a real. */
  function Floor(x: real): int { x.Floor }

  /** JavaScript `x % 1`: the remainder keeps the sign of x (truncation, not flooring). */
  function FracPart(x: real): (r: real)
    ensures 0.0 <= x ==> 0.0 <= r < 1.0
    ensures x < 0.0 ==> -1.0 < r <= 0.0
  {
    if x >= 0.0 then x - x.Floor as real else x + (-x).Floor as real
  }

  /** Math.round: halves round towards +infinity. */
  function Round(x: real): (r: int)
    ensures x - 0.5 < r as real <= x + 0.5
  {
    (x + 0.5).Floor
  }

  /** A stream of Math.random() results: the k-th value drawn by one consumer. */
  type Draws = nat -> real

  ghost predicate Uniform(d: Draws) {
    forall k: nat :: 0.0 <= d(k) < 1.0
  }

  /** The range fact kept about Math.exp: x |-> exp(-x) maps positive arguments into (0, 1). */
  ghost predicate IsDecay(f: real -> real) {
    forall x: real :: 0.0 < x ==> 0.0 < f(x) < 1.0
  }

  /** The range fact kept about Math.pow(., 1.8): non-negative bases give non-negative results. */
  ghost predicate IsPowerCurve(f: real -> real) {
    forall x: real :: 0.0 <= x ==> 0.0 <= f(x)
  }

  /** clamp(v, lo, hi) = Math.max(lo, Math.min(hi, v)). */
  function Clamp(v: real, lo: real, hi: real): (r: real)
    ensures lo <= hi ==> lo <= r <= hi
    ensures lo <= v <= hi ==> r == v
    ensures v < lo ==> r == lo
    ensures lo <= hi < v ==> r == hi
  {
    Max(lo, Min(hi, v))
  }

  /** clamp(v) with its default bounds lo = 0 and hi = 1. */
  function Clamp01(v: real): (r: real)
    ensures 0.0 <= r <= 1.0
    ensures 0.0 <= v <= 1.0 ==> r == v
    ensures v <= 0.0 ==> r == 0.0
    ensures 1.0 <= v ==> r == 1.0
  {
    Clamp(v, 0.0, 1.0)
  }

  /** lerp (and its alias mix): the point a fraction t of the way from a to b. */
  function Lerp(a: real, b: real, t: real): (r: real)
    ensures t == 0.0 ==> r == a
    ensures t == 1.0 ==> r == b
    ensures 0.0 <= t <= 1.0 ==> Min(a, b) <= r <= Max(a, b)
  {
    LerpBetween(a, b, t);
    a + (b - a) * t
  }

  lemma LerpBetween(a: real, b: real, t: real)
    ensures 0.0 <= t <= 1.0 ==> Min(a, b) <= a + (b - a) * t <= Max(a, b)
  {
    if 0.0 <= t <= 1.0 {
      if a <= b {
        MulUnit(b - a, t);
      } else {
        MulUnit(a - b, t);
        assert (a - b) * t == -((b - a) * t);
      }
    }
  }

  /** A non-negative d scaled by a fraction of one stays between 0 and d. */
  lemma MulUnit(d: real, t: real)
    requires 0.0 <= d && 0.0 <= t <= 1.0
    ensures 0.0 <= d * t <= d
  {
    MulNonneg(d, t);
    MulNonneg(d, 1.0 - t);
    assert d * (1.0 - t) == d - d * t;
  }

  /** One cooling step t - (t - air)·k with 0 <= k <= 1 lands between t and the air temperature. */
  lemma CoolTowards(t: real, air: real, k: real)
    requires 0.0 <= k <= 1.0
    ensures Min(t, air) <= t - (t - air) * k <= Max(t, air)
  {
    LerpBetween(t, air, k);
    assert t - (t - air) * k == t + (air - t) * k;
  }

  /** With k <= 1 a cooling step keeps the order of temperatures. */
  lemma CoolMonotone(t: real, u: real, air: real, k: real)
    requires t <= u && k <= 1.0
    ensures t - (t - air) * k <= u - (u - air) * k
  {
    MulNonneg(u - t, 1.0 - k);
    assert (u - (u - air) * k) - (t - (t - air) * k) == (u - t) * (1.0 - k);
  }

  lemma MulNonneg(a: real, b: real)
    ensures 0.0 <= a && 0.0 <= b ==> 0.0 <= a * b
  {
  }

  lemma MulMono(a: real, b: real, c: real)
    ensures 0.0 <= c && a <= b ==> a * c <= b * c && c * a <= c * b
  {
    MulNonneg(b - a, c);
    assert b * c - a * c == (b - a) * c;
  }

  /** The Hermite ease 3t^2 - 2t^3 stays in [0, 1] on [0, 1]. */
  lemma SmoothPolyInUnit(t: real)
    requires 0.0 <= t <= 1.0
    ensures 0.0 <= t * t * (3.0 - 2.0 * t) <= 1.0
  {
    assert 1.0 - t * t * (3.0 - 2.0 * t) == (1.0 - t) * (1.0 - t) * (1.0 + 2.0 * t);
    MulNonneg(1.0 - t, 1.0 - t);
    MulNonneg((1.0 - t) * (1.0 - t), 1.0 + 2.0 * t);
    MulNonneg(t, t);
    MulNonneg(t * t, 3.0 - 2.0 * t);
  }

  /** A rate divided by max(1, x) is a share of it: between 0 and the rate itself. */
  lemma DampedShare(rate: real, x: real)
    ensures 0.0 <= rate ==> 0.0 <= rate * (1.0 / Max(1.0, x)) <= rate
  {
    var m := Max(1.0, x);
    assert 0.0 < 1.0 / m <= 1.0;
    MulNonneg(rate, 1.0 / m);
    MulMono(1.0 / m, 1.0, rate);
  }

  lemma QuotientBounds(x: real, y: real)
    requires y != 0.0
    ensures x <= 0.0 < y ==> x / y <= 0.0
    ensures 0.0 < y <= x ==> x / y >= 1.0
  {
  }

  /** smoothstep(e0, e1, x); e0 == e1 would divide by zero and is not modelled. */
  function Smoothstep(e0: real, e1: real, x: real): (r: real)
    requires e0 != e1
    ensures 0.0 <= r <= 1.0
    ensures e0 < e1 && x <= e0 ==> r == 0.0
    ensures e0 < e1 && e1 <= x ==> r == 1.0
  {
    var q := (x - e0) / (e1 - e0);
    QuotientBounds(x - e0, e1 - e0);
    var t := Clamp01(q);
    SmoothPolyInUnit(t);
    t * t * (3.0 - 2.0 * t)
  }

  /** The mutable 2D vector of vec(x, y). */
  class Vec2 {
    var x: real
    var y: real

    constructor (x0: real, y0: real)
      ensures x == x0 && y == y0
    {
      x := x0;
      y := y0;
    }
  }

  /** add(a, b): a += b componentwise, then returns a itself. */
  method Add(a: Vec2, b: Vec2) returns (r: Vec2)
    modifies a
    ensures r == a
    ensures a.x == old(a.x) + old(b.x) && a.y == old(a.y) + old(b.y)
    ensures b != a ==> b.x == old(b.x) && b.y == old(b.y)
  {
    a.x := a.x + b.x;
    a.y := a.y + b.y;
    r := a;
  }

  /** mul(a, s): a *= s componentwise, then returns a itself. */
  method Mul(a: Vec2, s: real) returns (r: Vec2)
    modifies a
    ensures r == a
    ensures a.x == old(a.x) * s && a.y == old(a.y) * s
  {
    a.x := a.x * s;
    a.y := a.y * s;
    r := a;
  }

  /** The position/velocity vector of a Three.js object (THREE.Vector3). */
  datatype Vec3 = Vec3(x: real, y: real, z: real)

  /** fuelSecondsToEnergy: listed seconds of fuel to energy units. */
  function FuelSecondsToEnergy(sec: real): (e: real)
    ensures e / EnergyScale == sec
    ensures 0.0 <= e <==> 0.0 <= sec
  {
    sec * EnergyScale
  }

  lemma FuelEnergyLinear(a: real, b: real, c: real)
    ensures FuelSecondsToEnergy(a + b) == FuelSecondsToEnergy(a) + FuelSecondsToEnergy(b)
    ensures FuelSecondsToEnergy(c * a) == c * FuelSecondsToEnergy(a)
  {
  }

  lemma FuelEnergyIncreasing(a: real, b: real)
    requires a < b
    ensures FuelSecondsToEnergy(a) < FuelSecondsToEnergy(b)
  {
  }
}
