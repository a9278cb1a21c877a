/** The 2D fuel pile: insertion, grid layout and the thermal step (src/logs.js). */
module Logs2D {
  import opened FireMath
  import opened FireState
  import opened PileRules

  // ---------------------------------------------------------------- addLog

  function MassBase(kind: FuelKind): real
  {
    match kind
    case Tinder => 0.4
    case Kindling => 1.2
    case Log => 3.0
  }

  function MassSpread(kind: FuelKind): real
  {
    match kind
    case Tinder => 0.2
    case Kindling => 0.6
    case Log => 1.5
  }

  function SurfaceBase(kind: FuelKind): real
  {
    match kind
    case Tinder => 0.05
    case Kindling => 0.11
    case Log => 0.17
  }

  /**
   * The record addLog pushes. Its draws, in the order logs.js reads them: moisture,
   * mass, surface, seed, temperature.
   */
  function NewLog(kind: FuelKind, d: Draws): (l: Log2D)
    requires Uniform(d)
    ensures !l.burning && l.ember == 0.0 && l.kind == kind && l.row == 0
    ensures 30.0 <= l.temp < 40.0
    ensures 0.08 <= l.moisture < 0.20
    ensures MassBase(kind) <= l.mass < MassBase(kind) + MassSpread(kind)
    ensures 0.05 <= l.surface < 0.22
    ensures -6.0 <= l.jx < 6.0 && -2.0 <= l.jy < 2.0 && -0.04 <= l.jrot < 0.04
  {
    var moisture := 0.08 + d(0) * 0.12;
    var mass := MassBase(kind) + d(1) * MassSpread(kind);
    var surface := SurfaceBase(kind) + d(2) * 0.05;
    var seed := d(3);
    MulMono(d(1), 1.0, MassSpread(kind));
    MulNonneg(d(1), MassSpread(kind));
    Log2D(
      temp := 30.0 + d(4) * 10.0,
      moisture := moisture,
      mass := mass,
      surface := surface,
      burning := false,
      heat := mass * 1000.0 * 1.6,
      ember := 0.0,
      pos := Point(0.0, 0.0),
      rot := 0.0,
      seed := seed,
      row := 0,
      jx := (seed * 2.0 - 1.0) * 6.0,
      jy := (FracPart(seed * 1.37) * 2.0 - 1.0) * 2.0,
      jrot := (FracPart(seed * 1.91) - 0.5) * 0.08,
      kind := kind,
      width := 0.0,
      height := 0.0)
  }

  /** addLog(kind): push a fresh log, then shift the oldest once there are more than 60. */
  method AddLog(st: State, kind: FuelKind, d: Draws)
    requires Uniform(d)
    modifies st`logs
    ensures st.logs == Push(old(st.logs), NewLog(kind, d))
  {
    st.logs := st.logs + [NewLog(kind, d)];
    if |st.logs| > Capacity {
      st.logs := st.logs[1..];
    }
  }

  // ---------------------------------------------------------------- layoutLogs

  /** Size factor of each kind. */
  function KindScale(kind: FuelKind): (k: real)
    ensures 0.0 < k <= 1.0
  {
    match kind
    case Tinder => 0.35
    case Kindling => 0.6
    case Log => 1.0
  }

  /** The loop body of layoutLogs for log i of n: position, rotation, size and row. */
  function Place(l: Log2D, i: nat, n: nat, cx: real, baseY: real): (r: Log2D)
    requires i < n
    ensures r == l.(pos := r.pos, rot := r.rot, width := r.width, height := r.height, row := r.row)
    ensures r.row == Row(i)
    ensures r.width == (120.0 - 8.0 * Row(i) as real) * KindScale(l.kind)
  {
    var row := Row(i);
    var col := Col(i);
    var center := (CountInRow(i, n) - 1) as real / 2.0;
    var x := cx + (col as real - center) * 74.0 + l.jx;
    var y := baseY + 8.0 - row as real * 16.0 + l.jy;
    var rotBase := (if row % 2 == 0 then -12.0 + col as real * 6.0 else 12.0 - col as real * 6.0) * Pi / 180.0;
    var k := KindScale(l.kind);
    l.(pos := Point(x, y), rot := rotBase + l.jrot,
       width := (120.0 - row as real * 8.0) * k, height := (34.0 - row as real * 2.0) * (k * 0.8),
       row := row)
  }

  function Arranged(ls: seq<Log2D>, cx: real, baseY: real): (r: seq<Log2D>)
    ensures |r| == |ls|
  {
    seq(|ls|, i requires 0 <= i < |ls| => Place(ls[i], i, |ls|, cx, baseY))
  }

  /** layoutLogs(cx, baseY) rewrites every log's placement in place. */
  method LayoutLogs(st: State, cx: real, baseY: real)
    modifies st`logs
    ensures st.logs == Arranged(old(st.logs), cx, baseY)
  {
    var n := |st.logs|;
    var i := 0;
    while i < n
      invariant 0 <= i <= n == |st.logs|
      invariant forall k :: 0 <= k < i ==> st.logs[k] == Place(old(st.logs)[k], k, n, cx, baseY)
      invariant forall k :: i <= k < n ==> st.logs[k] == old(st.logs)[k]
    {
      st.logs := st.logs[i := Place(st.logs[i], i, n, cx, baseY)];
      i := i + 1;
    }
  }

  /** A log's place on the grid: its position with the jitter taken off. */
  function GridPos(ls: seq<Log2D>, cx: real, baseY: real, k: nat): Point
    requires k < |ls|
  {
    var p := Arranged(ls, cx, baseY)[k].pos;
    Point(p.x - ls[k].jx, p.y - ls[k].jy)
  }

  /** Where slot k of an arranged pile sits, jitter taken off. */
  lemma PlacedAt(ls: seq<Log2D>, cx: real, baseY: real, k: nat)
    requires k < |ls|
    ensures GridPos(ls, cx, baseY, k).x == cx + (Col(k) as real - (CountInRow(k, |ls|) - 1) as real / 2.0) * 74.0
    ensures GridPos(ls, cx, baseY, k).y == baseY + 8.0 - Row(k) as real * 16.0
  {
  }

  /** Neighbours within a row sit in consecutive columns, 74 apart. */
  lemma ArrangedColumns(ls: seq<Log2D>, cx: real, baseY: real, i: nat)
    requires i + 1 < |ls| && Row(i + 1) == Row(i)
    ensures Col(i + 1) == Col(i) + 1
    ensures GridPos(ls, cx, baseY, i + 1).x - GridPos(ls, cx, baseY, i).x == 74.0
  {
    GridNeighbours(i, |ls|);
    PlacedAt(ls, cx, baseY, i);
    PlacedAt(ls, cx, baseY, i + 1);
  }

  /** The piece five further on sits one row up, 16 higher on screen. */
  lemma ArrangedRows(ls: seq<Log2D>, cx: real, baseY: real, i: nat)
    requires i + PerRow < |ls|
    ensures Row(i + PerRow) == Row(i) + 1
    ensures GridPos(ls, cx, baseY, i + PerRow).y == GridPos(ls, cx, baseY, i).y - 16.0
  {
    GridNeighbours(i, |ls|);
    PlacedAt(ls, cx, baseY, i);
    PlacedAt(ls, cx, baseY, i + PerRow);
  }

  /** Every row is centred on cx: its first and last logs sit symmetrically about it. */
  lemma ArrangedCentred(ls: seq<Log2D>, cx: real, baseY: real, i: nat)
    requires i < |ls|
    ensures var first, last := PerRow * Row(i), PerRow * Row(i) + CountInRow(i, |ls|) - 1;
            && first <= i <= last < |ls| && Row(first) == Row(last) == Row(i)
            && GridPos(ls, cx, baseY, first).x - cx == -(GridPos(ls, cx, baseY, last).x - cx)
  {
    var n := |ls|;
    GridNeighbours(i, n);
    var first, last := PerRow * Row(i), PerRow * Row(i) + CountInRow(i, n) - 1;
    PlacedAt(ls, cx, baseY, first);
    PlacedAt(ls, cx, baseY, last);
  }

  /**
   * Layout only reads what was fixed when a log was created, so laying out
   * an arranged pile again changes nothing: the pile is stable across frames.
   */
  lemma ArrangedIsStable(ls: seq<Log2D>, cx: real, baseY: real)
    ensures Arranged(Arranged(ls, cx, baseY), cx, baseY) == Arranged(ls, cx, baseY)
  {
    var a := Arranged(ls, cx, baseY);
    forall i | 0 <= i < |ls|
      ensures Place(a[i], i, |ls|, cx, baseY) == a[i]
    {
      assert a[i] == Place(ls[i], i, |ls|, cx, baseY);
    }
  }

  /** Of two logs of one kind, the later (higher) one is never wider. */
  lemma WidthShrinksUpward(ls: seq<Log2D>, cx: real, baseY: real, i: nat, j: nat)
    requires i <= j < |ls| && ls[i].kind == ls[j].kind
    ensures Arranged(ls, cx, baseY)[j].width <= Arranged(ls, cx, baseY)[i].width
  {
    RowsInOrder(i, j);
    var k := KindScale(ls[i].kind);
    MulMono(120.0 - 8.0 * Row(j) as real, 120.0 - 8.0 * Row(i) as real, k);
  }

  // ---------------------------------------------------------------- simulateLogThermal

  /** The environment sim.js passes: ambient air, the fire's centre and base, the global intensity. */
  datatype Env = Env(airTemp: real, fireX: real, baseY: real, intensity: real)

  /** How strongly the flame reaches a log: Gaussian across, ramped by height, weaker on higher rows. */
  function HeatProfile(a: Log2D, fireX: real, baseY: real, gauss: real -> real): real
  {
    var dx := a.pos.x - fireX;
    var dy := baseY - a.pos.y;
    var horiz := gauss(dx * dx / (2.0 * 120.0 * 120.0));
    var vert := Clamp((dy + 10.0) / 70.0, 0.0, 1.0);
    var rowFalloff := Clamp(1.0 - 0.08 * a.row as real, 0.25, 1.0);
    120.0 * horiz * vert * rowFalloff
  }

  /** The flame's heating rate at a log: the intensity times the profile (baseHeat 120 is in the profile). */
  function FlameHeat(a: Log2D, env: Env, gauss: real -> real): real
  {
    env.intensity * HeatProfile(a, env.fireX, env.baseY, gauss)
  }

  /** The share of the gap to the air that one step of air cooling removes. */
  function AirCooling(a: Log2D, dt: real): real
  {
    0.9 * dt * (0.25 + a.surface)
  }

  /**
   * A log's temperature after flame heating and air cooling, the first two
   * updates of the loop body. `gauss` stands for x |-> Math.exp(-x).
   */
  function Warmed(a: Log2D, dt: real, env: Env, gauss: real -> real): real
  {
    var t1 := a.temp + FlameHeat(a, env, gauss) * dt;
    t1 - (t1 - env.airTemp) * AirCooling(a, dt)
  }

  /**
   * Without flame, and with a cooling share in [0, 1], a log's temperature
   * moves toward the air temperature and never past it.
   */
  lemma WarmedRelaxesToAir(a: Log2D, dt: real, env: Env, gauss: real -> real)
    requires env.intensity == 0.0 && 0.0 <= AirCooling(a, dt) <= 1.0
    ensures Min(a.temp, env.airTemp) <= Warmed(a, dt, env, gauss) <= Max(a.temp, env.airTemp)
  {
    assert FlameHeat(a, env, gauss) == 0.0;
    CoolTowards(a.temp, env.airTemp, AirCooling(a, dt));
  }

  /** With exp(-x) non-negative the profile is non-negative. */
  lemma HeatProfileNonneg(a: Log2D, fireX: real, baseY: real, gauss: real -> real)
    requires forall x: real :: 0.0 <= gauss(x)
    ensures 0.0 <= HeatProfile(a, fireX, baseY, gauss)
  {
    var dx := a.pos.x - fireX;
    var dy := baseY - a.pos.y;
    var horiz := gauss(dx * dx / (2.0 * 120.0 * 120.0));
    var vert := Clamp((dy + 10.0) / 70.0, 0.0, 1.0);
    var rowFalloff := Clamp(1.0 - 0.08 * a.row as real, 0.25, 1.0);
    MulNonneg(120.0 * horiz, vert);
    MulNonneg(120.0 * horiz * vert, rowFalloff);
  }

  /** With exp(-x) non-negative, the heating rate grows with the fire's intensity. */
  lemma FlameHeatMonotone(a: Log2D, env: Env, hotter: real, gauss: real -> real)
    requires forall x: real :: 0.0 <= gauss(x)
    requires env.intensity <= hotter
    ensures 0.0 <= env.intensity ==> 0.0 <= FlameHeat(a, env, gauss)
    ensures FlameHeat(a, env, gauss) <= FlameHeat(a, env.(intensity := hotter), gauss)
  {
    var p := HeatProfile(a, env.fireX, env.baseY, gauss);
    HeatProfileNonneg(a, env.fireX, env.baseY, gauss);
    MulMono(env.intensity, hotter, p);
    MulNonneg(env.intensity, p);
  }

  /**
   * A hotter fire never leaves a log cooler: with exp(-x) non-negative,
   * dt >= 0 and a cooling share at most 1, Warmed grows with the intensity.
   */
  lemma WarmedMonotone(a: Log2D, dt: real, env: Env, hotter: real, gauss: real -> real)
    requires forall x: real :: 0.0 <= gauss(x)
    requires 0.0 <= dt && env.intensity <= hotter && AirCooling(a, dt) <= 1.0
    ensures Warmed(a, dt, env, gauss) <= Warmed(a, dt, env.(intensity := hotter), gauss)
  {
    var h1, h2 := FlameHeat(a, env, gauss), FlameHeat(a, env.(intensity := hotter), gauss);
    FlameHeatMonotone(a, env, hotter, gauss);
    MulMono(h1, h2, dt);
    CoolMonotone(a.temp + h1 * dt, a.temp + h2 * dt, env.airTemp, AirCooling(a, dt));
  }

  /** What a log at temperature `temp` adds to the radiant total. */
  function Radiance(temp: real, surface: real): (r: real)
    ensures 0.0 <= surface ==> 0.0 <= r <= 1.8 * surface
    ensures temp <= 100.0 ==> r == 0.0
  {
    var e := Clamp01((temp - 100.0) / 350.0) * 1.8;
    assert 0.0 <= e <= 1.8;
    assert temp <= 100.0 ==> e == 0.0;
    MulNonneg(e, surface);
    MulMono(e, 1.8, surface);
    e * surface
  }

  /**
   * The rest of one log's update in the first loop, from its warmed
   * temperature `warm`, with `coin` the Math.random() value of its ignition
   * roll. Only temp, ember, moisture and burning change.
   */
  function Heat(a: Log2D, warm: real, dt: real, coin: real): (r: Log2D)
    ensures r == a.(temp := r.temp, ember := r.ember, moisture := r.moisture, burning := r.burning)
    ensures a.burning ==> r.burning
    ensures !a.burning && r.burning <==> !a.burning && warm > 280.0 && a.moisture < 0.12 && coin < 0.15 * dt
    ensures a.ember <= 1.0 ==> r.ember <= 1.0
    ensures 0.0 <= dt && a.ember <= 1.0 ==> a.ember <= r.ember
    ensures 0.0 <= dt ==> r.moisture <= a.moisture
    ensures 0.0 <= a.moisture ==> 0.0 <= r.moisture
    ensures r.moisture != a.moisture || r.ember != a.ember ==> a.burning
  {
    if a.burning then
      var t3 := warm + 55.0 * dt;
      var ember := Min(1.0, a.ember + dt * 0.15);
      if a.moisture > 0.0 then
        a.(temp := t3 - 140.0 * dt * 0.02, ember := ember, moisture := Max(0.0, a.moisture - dt * 0.05))
      else
        a.(temp := t3, ember := ember)
    else
      var hot := warm > 280.0 && a.moisture < 0.12;
      a.(temp := warm, burning := hot && coin < 0.15 * dt)
  }

  /** One log's whole update in the first loop: warmed, then heated with ignition roll `coin`. */
  function HeatAt(a: Log2D, dt: real, env: Env, gauss: real -> real, coin: real): Log2D
  {
    Heat(a, Warmed(a, dt, env, gauss), dt, coin)
  }

  /** The pile after the first loop; `coins(k)` is log k's ignition roll. */
  function HeatPile(ls: seq<Log2D>, dt: real, env: Env, gauss: real -> real, coins: Draws): (r: seq<Log2D>)
    ensures |r| == |ls|
  {
    seq(|ls|, k requires 0 <= k < |ls| => HeatAt(ls[k], dt, env, gauss, coins(k)))
  }

  /** What one log adds to the radiant total in the first loop, from its warmed temperature. */
  function Glow(a: Log2D, dt: real, env: Env, gauss: real -> real): real
  {
    Radiance(Warmed(a, dt, env, gauss), a.surface)
  }

  /** The radiant total of the first n logs, summed in loop order. */
  function RadiantPrefix(ls: seq<Log2D>, n: nat, dt: real, env: Env, gauss: real -> real): real
    requires n <= |ls|
  {
    if n == 0 then 0.0 else RadiantPrefix(ls, n - 1, dt, env, gauss) + Glow(ls[n - 1], dt, env, gauss)
  }

  function RadiantSum(ls: seq<Log2D>, dt: real, env: Env, gauss: real -> real): real
  {
    RadiantPrefix(ls, |ls|, dt, env, gauss)
  }

  function SurfacePrefix(ls: seq<Log2D>, n: nat): real
    requires n <= |ls|
  {
    if n == 0 then 0.0 else SurfacePrefix(ls, n - 1) + ls[n - 1].surface
  }

  function SurfaceSum(ls: seq<Log2D>): real
  {
    SurfacePrefix(ls, |ls|)
  }

  /** Layout moves logs but keeps their surface, so it keeps the pile's total surface. */
  lemma {:induction false} ArrangedKeepsSurface(ls: seq<Log2D>, cx: real, baseY: real, n: nat)
    requires n <= |ls|
    ensures SurfacePrefix(Arranged(ls, cx, baseY), n) == SurfacePrefix(ls, n)
    ensures forall k :: 0 <= k < |ls| ==> Arranged(ls, cx, baseY)[k].surface == ls[k].surface
  {
    if n > 0 {
      ArrangedKeepsSurface(ls, cx, baseY, n - 1);
    }
  }

  /** The radiant total is non-negative and at most 1.8 times the pile's surface. */
  lemma RadiantBounded(ls: seq<Log2D>, dt: real, env: Env, gauss: real -> real)
    requires forall k :: 0 <= k < |ls| ==> 0.0 <= ls[k].surface
    ensures 0.0 <= RadiantSum(ls, dt, env, gauss) <= 1.8 * SurfaceSum(ls)
  {
    RadiantPrefixBounded(ls, |ls|, dt, env, gauss);
  }

  lemma {:induction false} RadiantPrefixBounded(ls: seq<Log2D>, n: nat, dt: real, env: Env, gauss: real -> real)
    requires n <= |ls|
    requires forall k :: 0 <= k < |ls| ==> 0.0 <= ls[k].surface
    ensures 0.0 <= RadiantPrefix(ls, n, dt, env, gauss) <= 1.8 * SurfacePrefix(ls, n)
  {
    if n > 0 {
      RadiantPrefixBounded(ls, n - 1, dt, env, gauss);
    }
  }

  function Temps(ls: seq<Log2D>): (ts: seq<real>)
    ensures |ts| == |ls|
  {
    seq(|ls|, k requires 0 <= k < |ls| => ls[k].temp)
  }

  function WithTemps(ls: seq<Log2D>, ts: seq<real>): (r: seq<Log2D>)
    requires |ts| == |ls|
    ensures |r| == |ls|
  {
    seq(|ls|, k requires 0 <= k < |ls| => ls[k].(temp := ts[k]))
  }

  /** The share of the temperature difference that flows between two logs this step. */
  function Coef2D(p: Point, q: Point, dt: real): (c: real)
    ensures 0.0 <= dt ==> 0.0 <= c <= 0.6 * dt
    ensures (p.x - q.x) * (p.x - q.x) + (p.y - q.y) * (p.y - q.y) >= 80.0 * 80.0 ==> c == 0.0
  {
    var dx := p.x - q.x;
    var dy := p.y - q.y;
    var dist2 := dx * dx + dy * dy;
    if dist2 < 80.0 * 80.0 then
      var rate := 0.6 * dt;
      DampedShare(rate, dist2 / 4000.0);
      rate * (1.0 / Max(1.0, dist2 / 4000.0))
    else 0.0
  }

  /** Heat flows between two logs at the same rate whichever is named first. */
  lemma Coef2DSymmetric(p: Point, q: Point, dt: real)
    ensures Coef2D(p, q, dt) == Coef2D(q, p, dt)
  {
    assert (p.x - q.x) * (p.x - q.x) == (q.x - p.x) * (q.x - p.x);
    assert (p.y - q.y) * (p.y - q.y) == (q.y - p.y) * (q.y - p.y);
  }

  function CoefOf(ls: seq<Log2D>, dt: real): (nat, nat) -> real
  {
    (i: nat, j: nat) => if i < |ls| && j < |ls| then Coef2D(ls[i].pos, ls[j].pos, dt) else 0.0
  }

  /** The pile after both loops of simulateLogThermal. */
  function ThermalPile(ls: seq<Log2D>, dt: real, env: Env, gauss: real -> real, coins: Draws): (r: seq<Log2D>)
    ensures |r| == |ls|
  {
    var h := HeatPile(ls, dt, env, gauss, coins);
    WithTemps(h, Conduct(Temps(h), CoefOf(h, dt)))
  }

  /**
   * Per log, across a whole thermal step: burning is one-way; a log ignites
   * only when hot and dry; ember never falls and stays at most 1; moisture
   * never rises, stays non-negative and changes only while burning.
   */
  lemma ThermalPerLog(ls: seq<Log2D>, dt: real, env: Env, gauss: real -> real, coins: Draws, i: nat)
    requires i < |ls|
    ensures var a, r := ls[i], ThermalPile(ls, dt, env, gauss, coins)[i];
            && (a.burning ==> r.burning)
            && ((!a.burning && r.burning) <==>
                (!a.burning && Warmed(a, dt, env, gauss) > 280.0 && a.moisture < 0.12 && coins(i) < 0.15 * dt))
            && (a.ember <= 1.0 ==> r.ember <= 1.0)
            && (0.0 <= dt && a.ember <= 1.0 ==> a.ember <= r.ember)
            && (0.0 <= dt ==> r.moisture <= a.moisture)
            && (0.0 <= a.moisture ==> 0.0 <= r.moisture)
            && (r.moisture != a.moisture || r.ember != a.ember ==> a.burning)
            && r == a.(temp := r.temp, ember := r.ember, moisture := r.moisture, burning := r.burning)
  {
    var h := HeatPile(ls, dt, env, gauss, coins);
    assert h[i] == Heat(ls[i], Warmed(ls[i], dt, env, gauss), dt, coins(i));
    assert ThermalPile(ls, dt, env, gauss, coins)[i] == h[i].(temp := Conduct(Temps(h), CoefOf(h, dt))[i]);
  }

  /** The conduction loop leaves the sum of the temperatures it found unchanged. */
  lemma ThermalConductionConserves(ls: seq<Log2D>, dt: real, env: Env, gauss: real -> real, coins: Draws)
    ensures var h := HeatPile(ls, dt, env, gauss, coins);
            Sum(Temps(ThermalPile(ls, dt, env, gauss, coins))) == Sum(Temps(h))
  {
    var h := HeatPile(ls, dt, env, gauss, coins);
    var c := Conduct(Temps(h), CoefOf(h, dt));
    ConductConserves(Temps(h), CoefOf(h, dt));
    assert Temps(WithTemps(h, c)) == c;
  }

  /** The inputs of one frame's thermal step. */
  datatype Tick = Tick(dt: real, env: Env, coins: Draws)

  function RunThermal(ls: seq<Log2D>, ticks: seq<Tick>, gauss: real -> real): (r: seq<Log2D>)
    ensures |r| == |ls|
    decreases |ticks|
  {
    if ticks == [] then ls
    else RunThermal(ThermalPile(ls, ticks[0].dt, ticks[0].env, gauss, ticks[0].coins), ticks[1..], gauss)
  }

  /**
   * However many frames pass and however hot it gets, a log that is not
   * burning and has moisture at least 0.12 keeps its moisture and never ignites.
   */
  lemma {:induction false} WetLogNeverIgnites(ls: seq<Log2D>, ticks: seq<Tick>, gauss: real -> real, i: nat)
    requires i < |ls| && !ls[i].burning && ls[i].moisture >= 0.12
    ensures !RunThermal(ls, ticks, gauss)[i].burning
    ensures RunThermal(ls, ticks, gauss)[i].moisture == ls[i].moisture
    decreases |ticks|
  {
    if ticks != [] {
      var t := ticks[0];
      ThermalPerLog(ls, t.dt, t.env, gauss, t.coins, i);
      WetLogNeverIgnites(ThermalPile(ls, t.dt, t.env, gauss, t.coins), ticks[1..], gauss, i);
    }
  }

  /** Loop invariant of the first loop: logs before i are updated, the rest untouched, and `radiant` sums the first i. */
  ghost predicate HeatedUpTo(cur: seq<Log2D>, orig: seq<Log2D>, i: nat, radiant: real, dt: real, env: Env, gauss: real -> real, coins: Draws)
  {
    && i <= |orig| == |cur|
    && (forall k :: 0 <= k < i ==> cur[k] == HeatAt(orig[k], dt, env, gauss, coins(k)))
    && (forall k :: i <= k < |orig| ==> cur[k] == orig[k])
    && radiant == RadiantPrefix(orig, i, dt, env, gauss)
  }

  /** The body of the first loop for log i: update it in place and add what it radiates. */
  method HeatOne(st: State, i: nat, dt: real, env: Env, gauss: real -> real, coins: Draws, radiant: real, ghost orig: seq<Log2D>)
    returns (radiant': real)
    requires i < |orig| && HeatedUpTo(st.logs, orig, i, radiant, dt, env, gauss, coins)
    modifies st`logs
    ensures HeatedUpTo(st.logs, orig, i + 1, radiant', dt, env, gauss, coins)
  {
    var a := st.logs[i];
    var warm := Warmed(a, dt, env, gauss);
    radiant' := radiant + Radiance(warm, a.surface);
    st.logs := st.logs[i := Heat(a, warm, dt, coins(i))];
  }

  /** The first loop of simulateLogThermal: heat, cool and possibly ignite each log, summing the radiant output. */
  method HeatLogs(st: State, dt: real, env: Env, gauss: real -> real, coins: Draws)
    returns (radiant: real)
    modifies st`logs
    ensures st.logs == HeatPile(old(st.logs), dt, env, gauss, coins)
    ensures radiant == RadiantSum(old(st.logs), dt, env, gauss)
  {
    var n := |st.logs|;
    ghost var orig := st.logs;
    radiant := 0.0;
    var i := 0;
    while i < n
      invariant HeatedUpTo(st.logs, orig, i, radiant, dt, env, gauss, coins) && n == |orig|
    {
      radiant := HeatOne(st, i, dt, env, gauss, coins, radiant, orig);
      i := i + 1;
    }
  }

  lemma TempsUpdate(ls: seq<Log2D>, i: nat, v: real)
    requires i < |ls|
    ensures Temps(ls[i := ls[i].(temp := v)]) == Temps(ls)[i := v]
  {
  }

  /** A pile that differs from `ls` only in temperatures is `ls` with its own temperatures. */
  lemma SameButTemps(ls: seq<Log2D>, cur: seq<Log2D>)
    requires |cur| == |ls|
    requires forall k :: 0 <= k < |ls| ==> cur[k] == ls[k].(temp := cur[k].temp)
    ensures cur == WithTemps(ls, Temps(cur))
  {
  }

  /** The body of the inner conduction loop for the pair (i, j). */
  method ExchangeHeat(st: State, i: nat, j: nat, dt: real)
    requires i < j < |st.logs|
    modifies st`logs
    ensures |st.logs| == |old(st.logs)|
    ensures forall k :: 0 <= k < |st.logs| ==> st.logs[k] == old(st.logs)[k].(temp := st.logs[k].temp)
    ensures Temps(st.logs) == Exchange(Temps(old(st.logs)), i, j, Coef2D(old(st.logs)[i].pos, old(st.logs)[j].pos, dt))
  {
    var a := st.logs[i];
    var b := st.logs[j];
    var dx := a.pos.x - b.pos.x;
    var dy := a.pos.y - b.pos.y;
    var dist2 := dx * dx + dy * dy;
    if dist2 < 80.0 * 80.0 {
      var flow := (a.temp - b.temp) * 0.6 * dt * (1.0 / Max(1.0, dist2 / 4000.0));
      ghost var ts := Temps(st.logs);
      ghost var c := Coef2D(a.pos, b.pos, dt);
      assert flow == (ts[i] - ts[j]) * c;
      ExchangeIs(ts, i, j, c);
      TempsUpdate(st.logs, i, a.temp - flow);
      st.logs := st.logs[i := a.(temp := a.temp - flow)];
      TempsUpdate(st.logs, j, b.temp + flow);
      st.logs := st.logs[j := b.(temp := b.temp + flow)];
      assert Temps(st.logs) == ts[i := ts[i] - flow][j := ts[j] + flow];
      assert Temps(st.logs) == Exchange(ts, i, j, c);
    }
  }

  /** One pass of the inner conduction loop: piece i against every later piece. */
  method ConductRowLogs(st: State, i: nat, dt: real, ghost heated: seq<Log2D>)
    requires i < |st.logs| == |heated|
    requires forall k :: 0 <= k < |heated| ==> st.logs[k] == heated[k].(temp := st.logs[k].temp)
    modifies st`logs
    ensures |st.logs| == |heated|
    ensures forall k :: 0 <= k < |heated| ==> st.logs[k] == heated[k].(temp := st.logs[k].temp)
    ensures Temps(st.logs) == ConductRow(Temps(old(st.logs)), i, i + 1, CoefOf(heated, dt))
  {
    ghost var coef := CoefOf(heated, dt);
    ghost var row := ConductRow(Temps(st.logs), i, i + 1, coef);
    var j := i + 1;
    while j < |st.logs|
      invariant i < j <= |st.logs| == |heated|
      invariant forall k :: 0 <= k < |heated| ==> st.logs[k] == heated[k].(temp := st.logs[k].temp)
      invariant ConductRow(Temps(st.logs), i, j, coef) == row
    {
      assert Coef2D(st.logs[i].pos, st.logs[j].pos, dt) == coef(i, j);
      ExchangeHeat(st, i, j, dt);
      j := j + 1;
    }
  }

  /** The second loop of simulateLogThermal: every pair i < j closer than 80 exchanges heat. */
  method ConductLogs(st: State, dt: real)
    modifies st`logs
    ensures st.logs == WithTemps(old(st.logs), Conduct(Temps(old(st.logs)), CoefOf(old(st.logs), dt)))
  {
    var n := |st.logs|;
    ghost var heated := st.logs;
    ghost var coef := CoefOf(heated, dt);
    ghost var target := Conduct(Temps(heated), coef);
    var i := 0;
    while i < n
      invariant 0 <= i <= n == |st.logs|
      invariant forall k :: 0 <= k < n ==> st.logs[k] == heated[k].(temp := st.logs[k].temp)
      invariant ConductFrom(Temps(st.logs), i, coef) == target
    {
      ConductRowLogs(st, i, dt, heated);
      i := i + 1;
    }
    SameButTemps(heated, st.logs);
  }

  /** simulateLogThermal(dt, env): the per-log loop, then the pairwise conduction pass. */
  method SimulateLogThermal(st: State, dt: real, env: Env, gauss: real -> real, coins: Draws)
    returns (radiant: real)
    modifies st`logs
    ensures st.logs == ThermalPile(old(st.logs), dt, env, gauss, coins)
    ensures radiant == RadiantSum(old(st.logs), dt, env, gauss)
  {
    radiant := HeatLogs(st, dt, env, gauss, coins);
    ConductLogs(st, dt);
  }
}
