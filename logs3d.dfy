/**
 * The 3D fuel pile (src/logs3d.js). Meshes and materials are reduced to the
 * numbers the simulation reads or writes: a position, a yaw and an emissive
 * glow level per entry, and the heat light's intensity.
 */
module Logs3D {
  import opened FireMath
  import opened PileRules

  /** heatPoint.position, fixed by initLogs3D. */
  const HeatPos: Vec3 := Vec3(0.0, 30.0, 0.0)

  /** One entry of `logs3d`: a mesh's placement and material glow, plus its thermal state. */
  datatype Entry3D = Entry3D(
    pos: Vec3,
    yaw: real,
    temp: real,
    moisture: real,
    burning: bool,
    ember: real,
    row: nat,
    jx: real,
    jy: real,
    jz: real,
    jyaw: real,
    glow: real)

  /** addLog3D's entry; its draws are the seed, then temperature, then moisture. */
  function NewEntry(d: Draws): (e: Entry3D)
    requires Uniform(d)
    ensures !e.burning && e.ember == 0.0 && e.row == 0 && e.glow == 0.0
    ensures 30.0 <= e.temp < 40.0
    ensures 0.1 <= e.moisture < 0.2
  {
    var seed := d(0);
    Entry3D(
      pos := Vec3(0.0, 0.0, 0.0),
      yaw := 0.0,
      temp := 30.0 + d(1) * 10.0,
      moisture := 0.1 + d(2) * 0.1,
      burning := false,
      ember := 0.0,
      row := 0,
      jx := (seed * 2.0 - 1.0) * 6.0,
      jy := (FracPart(seed * 1.37) * 2.0 - 1.0) * 2.0,
      jz := (FracPart(seed * 2.41) * 2.0 - 1.0) * 6.0,
      jyaw := (FracPart(seed * 1.91) - 0.5) * 0.08,
      glow := 0.0)
  }

  /** layoutLogs3D's loop body for entry i of n. */
  function Place3D(e: Entry3D, i: nat, n: nat): (r: Entry3D)
    requires i < n
    ensures r == e.(pos := r.pos, yaw := r.yaw, row := r.row)
    ensures r.row == Row(i)
    ensures r.pos.y == 30.0 + 12.0 * Row(i) as real + e.jy
    ensures r.pos.z == (if Row(i) % 2 == 0 then -18.0 else 18.0) + e.jz
  {
    var row := Row(i);
    var col := Col(i);
    var center := (CountInRow(i, n) - 1) as real / 2.0;
    var x := (col as real - center) * (0.8 * 60.0) + e.jx;
    var y := 30.0 + row as real * 12.0 + e.jy;
    var z := (if row % 2 == 0 then -18.0 else 18.0) + e.jz;
    var yaw := (if row % 2 == 0 then -15.0 + col as real * 6.0 else 15.0 - col as real * 6.0) * Pi / 180.0 + e.jyaw;
    e.(pos := Vec3(x, y, z), yaw := yaw, row := row)
  }

  function Arranged3D(es: seq<Entry3D>): (r: seq<Entry3D>)
    ensures |r| == |es|
  {
    seq(|es|, i requires 0 <= i < |es| => Place3D(es[i], i, |es|))
  }

  /** Laying out an arranged pile again changes nothing. */
  lemma Arranged3DIsStable(es: seq<Entry3D>)
    ensures Arranged3D(Arranged3D(es)) == Arranged3D(es)
  {
    var a := Arranged3D(es);
    forall i | 0 <= i < |es|
      ensures Place3D(a[i], i, |es|) == a[i]
    {
      assert a[i] == Place3D(es[i], i, |es|);
    }
  }

  /** The row factor of the flame gain; it is not clamped, so rows from 11 up are cooled by the flame. */
  function RowFactor(row: nat): (f: real)
    ensures f <= 1.0
    ensures row == 10 ==> f == 0.0
    ensures row >= 11 ==> f < 0.0
  {
    1.0 - 0.1 * row as real
  }

  /** How strongly the flame reaches an entry at distance d: Gaussian in d, scaled by the row factor (baseHeat 140 included). */
  function HeatProfile3D(row: nat, d: real, gauss: real -> real): real
  {
    140.0 * gauss(d * d / (2.0 * 120.0 * 120.0)) * RowFactor(row)
  }

  /**
   * Temperature after the flame gain and air cooling; `d` is the entry's
   * distance to the heat light and `gauss` stands for x |-> Math.exp(-x).
   */
  function Warmed3D(e: Entry3D, d: real, dt: real, intensity: real, gauss: real -> real): real
  {
    var gain := intensity * HeatProfile3D(e.row, d, gauss);
    var t1 := e.temp + gain * dt;
    t1 - (t1 - 22.0) * (0.7 * dt)
  }

  /** Without flame, and with 0 <= 0.7·dt <= 1, an entry moves toward the air temperature 22 and never past it. */
  lemma Warmed3DRelaxesToAir(e: Entry3D, d: real, dt: real, gauss: real -> real)
    requires 0.0 <= 0.7 * dt <= 1.0
    ensures Min(e.temp, 22.0) <= Warmed3D(e, d, dt, 0.0, gauss) <= Max(e.temp, 22.0)
  {
    CoolTowards(e.temp, 22.0, 0.7 * dt);
  }

  /**
   * On rows 0 to 10 (row factor >= 0) a hotter fire never leaves an entry
   * cooler; from row 11 on (row factor < 0) a hotter fire leaves it cooler.
   */
  lemma Warmed3DByIntensity(e: Entry3D, d: real, dt: real, intensity: real, hotter: real, gauss: real -> real)
    requires forall x: real :: 0.0 < gauss(x)
    requires 0.0 <= dt && 0.7 * dt <= 1.0 && intensity <= hotter
    ensures e.row <= 10 ==> Warmed3D(e, d, dt, intensity, gauss) <= Warmed3D(e, d, dt, hotter, gauss)
    ensures e.row >= 11 ==> Warmed3D(e, d, dt, hotter, gauss) <= Warmed3D(e, d, dt, intensity, gauss)
  {
    var g := gauss(d * d / (2.0 * 120.0 * 120.0));
    var p := HeatProfile3D(e.row, d, gauss);
    var t1 := e.temp + intensity * p * dt;
    var t2 := e.temp + hotter * p * dt;
    if e.row <= 10 {
      MulNonneg(140.0 * g, RowFactor(e.row));
      MulMono(intensity, hotter, p);
      MulMono(intensity * p, hotter * p, dt);
      CoolMonotone(t1, t2, 22.0, 0.7 * dt);
    } else {
      MulNonneg(140.0 * g, -RowFactor(e.row));
      assert (140.0 * g) * (-RowFactor(e.row)) == -p;
      MulMono(intensity, hotter, -p);
      assert hotter * p <= intensity * p;
      MulMono(hotter * p, intensity * p, dt);
      CoolMonotone(t2, t1, 22.0, 0.7 * dt);
    }
  }

  /**
   * The rest of one entry's update, from its warmed temperature, with `coin`
   * the ignition roll. Moisture is never written.
   */
  function Heat3D(e: Entry3D, warm: real, dt: real, coin: real): (r: Entry3D)
    ensures r == e.(temp := r.temp, ember := r.ember, burning := r.burning, glow := r.glow)
    ensures e.burning ==> r.burning && r.ember == Min(1.0, e.ember + 0.12 * dt)
    ensures !e.burning ==> r.ember == e.ember
    ensures !e.burning && r.burning <==> !e.burning && warm > 280.0 && e.moisture < 0.12 && coin < 0.12 * dt
    ensures 0.0 <= r.glow <= 1.0
  {
    if e.burning then
      var t := warm + 55.0 * dt;
      e.(temp := t, ember := Min(1.0, e.ember + dt * 0.12), glow := Clamp01((t - 120.0) / 240.0))
    else
      var ignite := warm > 280.0 && e.moisture < 0.12 && coin < 0.12 * dt;
      e.(temp := warm, burning := ignite, glow := Clamp01((warm - 120.0) / 240.0))
  }

  /** The pile after the first loop of updateThermal3D; `dist` stands for Vector3.distanceTo. */
  function HeatPile3D(es: seq<Entry3D>, dt: real, intensity: real, dist: (Vec3, Vec3) -> real,
                      gauss: real -> real, coins: Draws): (r: seq<Entry3D>)
    ensures |r| == |es|
  {
    seq(|es|, k requires 0 <= k < |es| =>
      Heat3D(es[k], Warmed3D(es[k], dist(es[k].pos, HeatPos), dt, intensity, gauss), dt, coins(k)))
  }

  lemma HeatPile3DGlow(es: seq<Entry3D>, dt: real, intensity: real, dist: (Vec3, Vec3) -> real,
                       gauss: real -> real, coins: Draws)
    ensures var h := HeatPile3D(es, dt, intensity, dist, gauss, coins);
            forall k :: 0 <= k < |h| ==> 0.0 <= h[k].glow <= 1.0
  {
    var h := HeatPile3D(es, dt, intensity, dist, gauss, coins);
    forall k | 0 <= k < |h|
      ensures 0.0 <= h[k].glow <= 1.0
    {
      assert h[k] == Heat3D(es[k], Warmed3D(es[k], dist(es[k].pos, HeatPos), dt, intensity, gauss), dt, coins(k));
    }
  }

  /** The radiant total of already-heated entries: 1.5 * 0.2 per unit of glow. */
  function RadiantSum3D(hs: seq<Entry3D>): real
  {
    if hs == [] then 0.0 else RadiantSum3D(hs[..|hs| - 1]) + hs[|hs| - 1].glow * 1.5 * 0.2
  }

  /** With every glow in [0, 1], the radiant total lies in [0, 0.3 * number of entries]. */
  lemma {:induction false} RadiantBounded3D(hs: seq<Entry3D>)
    requires forall k :: 0 <= k < |hs| ==> 0.0 <= hs[k].glow <= 1.0
    ensures 0.0 <= RadiantSum3D(hs) <= 0.3 * |hs| as real
  {
    if hs != [] {
      RadiantBounded3D(hs[..|hs| - 1]);
    }
  }

  // Temps3D and WithTemps3D mirror Logs2D.Temps and WithTemps for Entry3D:
  // the two records share a temp field but no common type to abstract over.
  function Temps3D(es: seq<Entry3D>): (ts: seq<real>)
    ensures |ts| == |es|
  {
    seq(|es|, k requires 0 <= k < |es| => es[k].temp)
  }

  function WithTemps3D(es: seq<Entry3D>, ts: seq<real>): (r: seq<Entry3D>)
    requires |ts| == |es|
    ensures |r| == |es|
  {
    seq(|es|, k requires 0 <= k < |es| => es[k].(temp := ts[k]))
  }

  /** Share of the temperature difference flowing between two entries at distance d. */
  function Coef3D(d: real, dt: real): (c: real)
    ensures 0.0 <= dt ==> 0.0 <= c <= 0.5 * dt
    ensures 90.0 <= d ==> c == 0.0
  {
    if d < 90.0 then
      var rate := 0.5 * dt;
      DampedShare(rate, d / 40.0);
      rate * (1.0 / Max(1.0, d / 40.0))
    else 0.0
  }

  function CoefOf3D(es: seq<Entry3D>, dist: (Vec3, Vec3) -> real, dt: real): (nat, nat) -> real
  {
    (i: nat, j: nat) => if i < |es| && j < |es| then Coef3D(dist(es[i].pos, es[j].pos), dt) else 0.0
  }

  /** The pile after both loops of updateThermal3D. */
  function ThermalPile3D(es: seq<Entry3D>, dt: real, intensity: real, dist: (Vec3, Vec3) -> real,
                         gauss: real -> real, coins: Draws): (r: seq<Entry3D>)
    ensures |r| == |es|
  {
    var h := HeatPile3D(es, dt, intensity, dist, gauss, coins);
    WithTemps3D(h, Conduct(Temps3D(h), CoefOf3D(h, dist, dt)))
  }

  /**
   * Per entry, across a whole step: burning is one-way, ignition needs heat
   * and dryness, ember is capped at 1, moisture and placement never change,
   * and the glow lies in [0, 1].
   */
  lemma Thermal3DPerEntry(es: seq<Entry3D>, dt: real, intensity: real, dist: (Vec3, Vec3) -> real,
                          gauss: real -> real, coins: Draws, i: nat)
    requires i < |es|
    ensures var e, r := es[i], ThermalPile3D(es, dt, intensity, dist, gauss, coins)[i];
            && (e.burning ==> r.burning)
            && ((!e.burning && r.burning) <==>
                (!e.burning && Warmed3D(e, dist(e.pos, HeatPos), dt, intensity, gauss) > 280.0
                 && e.moisture < 0.12 && coins(i) < 0.12 * dt))
            && (e.burning ==> r.ember == Min(1.0, e.ember + 0.12 * dt))
            && (!e.burning ==> r.ember == e.ember)
            && (e.ember <= 1.0 ==> r.ember <= 1.0)
            && (0.0 <= dt && e.ember <= 1.0 ==> e.ember <= r.ember)
            && 0.0 <= r.glow <= 1.0
            && r == e.(temp := r.temp, ember := r.ember, burning := r.burning, glow := r.glow)
  {
    var h := HeatPile3D(es, dt, intensity, dist, gauss, coins);
    assert h[i] == Heat3D(es[i], Warmed3D(es[i], dist(es[i].pos, HeatPos), dt, intensity, gauss), dt, coins(i));
    assert ThermalPile3D(es, dt, intensity, dist, gauss, coins)[i]
        == h[i].(temp := Conduct(Temps3D(h), CoefOf3D(h, dist, dt))[i]);
  }

  /** The conduction loop leaves the sum of the temperatures it found unchanged. */
  lemma Thermal3DConductionConserves(es: seq<Entry3D>, dt: real, intensity: real, dist: (Vec3, Vec3) -> real,
                                     gauss: real -> real, coins: Draws)
    ensures var h := HeatPile3D(es, dt, intensity, dist, gauss, coins);
            Sum(Temps3D(ThermalPile3D(es, dt, intensity, dist, gauss, coins))) == Sum(Temps3D(h))
  {
    var h := HeatPile3D(es, dt, intensity, dist, gauss, coins);
    var c := Conduct(Temps3D(h), CoefOf3D(h, dist, dt));
    ConductConserves(Temps3D(h), CoefOf3D(h, dist, dt));
    assert Temps3D(WithTemps3D(h, c)) == c;
  }

  /** The inputs of one frame's 3D thermal step. */
  datatype Tick3D = Tick3D(dt: real, intensity: real, coins: Draws)

  function RunThermal3D(es: seq<Entry3D>, ticks: seq<Tick3D>, dist: (Vec3, Vec3) -> real,
                        gauss: real -> real): (r: seq<Entry3D>)
    ensures |r| == |es|
    decreases |ticks|
  {
    if ticks == [] then es
    else
      var t := ticks[0];
      RunThermal3D(ThermalPile3D(es, t.dt, t.intensity, dist, gauss, t.coins), ticks[1..], dist, gauss)
  }

  /** An entry created with moisture of at least 0.12 never ignites, for any number of frames. */
  lemma {:induction false} WetEntryNeverIgnites(es: seq<Entry3D>, ticks: seq<Tick3D>, dist: (Vec3, Vec3) -> real,
                                                gauss: real -> real, i: nat)
    requires i < |es| && !es[i].burning && es[i].moisture >= 0.12
    ensures !RunThermal3D(es, ticks, dist, gauss)[i].burning
    ensures RunThermal3D(es, ticks, dist, gauss)[i].moisture == es[i].moisture
    decreases |ticks|
  {
    if ticks != [] {
      var t := ticks[0];
      Thermal3DPerEntry(es, t.dt, t.intensity, dist, gauss, t.coins, i);
      WetEntryNeverIgnites(ThermalPile3D(es, t.dt, t.intensity, dist, gauss, t.coins), ticks[1..], dist, gauss, i);
    }
  }

  /** Entries that differ from `es` only in temperatures are `es` with their own temperatures. */
  lemma SameButTemps3D(es: seq<Entry3D>, cur: seq<Entry3D>)
    requires |cur| == |es|
    requires forall k :: 0 <= k < |es| ==> cur[k] == es[k].(temp := cur[k].temp)
    ensures cur == WithTemps3D(es, Temps3D(cur))
  {
  }

  lemma Temps3DUpdate(es: seq<Entry3D>, i: nat, v: real)
    requires i < |es|
    ensures Temps3D(es[i := es[i].(temp := v)]) == Temps3D(es)[i := v]
  {
  }

  /** The module-level state of logs3d.js: the scene handle, the `logs3d` list and the heat light. */
  class Pile3D {
    /** Whether initLogs3D has run (the `three` handle is set). */
    var ready: bool
    var entries: seq<Entry3D>
    /** heatPoint.intensity. */
    var heatIntensity: real

    constructor ()
      ensures !ready && entries == [] && heatIntensity == 0.0
    {
      ready := false;
      entries := [];
      heatIntensity := 0.0;
    }

    /** initLogs3D: creates the scene and the heat light (intensity 0 at HeatPos). */
    method InitLogs3D()
      modifies this
      ensures ready && heatIntensity == 0.0 && entries == old(entries)
    {
      ready := true;
      heatIntensity := 0.0;
    }

    /**
     * addLog3D: append an entry and drop the oldest beyond 60. Before
     * initLogs3D it throws on the missing scene before touching the list;
     * `ok` is false then.
     */
    method AddLog3D(d: Draws) returns (ok: bool)
      requires Uniform(d)
      modifies this`entries
      ensures ok == ready
      ensures entries == if ready then Push(old(entries), NewEntry(d)) else old(entries)
    {
      if !ready {
        return false;
      }
      entries := entries + [NewEntry(d)];
      if |entries| > Capacity {
        entries := entries[1..];
      }
      ok := true;
    }

    /** layoutLogs3D: rows of five, staggered in z from row to row. */
    method LayoutLogs3D()
      modifies this`entries
      ensures entries == Arranged3D(old(entries))
    {
      var n := |entries|;
      var i := 0;
      while i < n
        invariant 0 <= i <= n == |entries|
        invariant forall k :: 0 <= k < i ==> entries[k] == Place3D(old(entries)[k], k, n)
        invariant forall k :: i <= k < n ==> entries[k] == old(entries)[k]
      {
        entries := entries[i := Place3D(entries[i], i, n)];
        i := i + 1;
      }
    }

    /** The first loop of updateThermal3D. */
    method HeatEntries(dt: real, intensity: real, dist: (Vec3, Vec3) -> real, gauss: real -> real, coins: Draws)
      returns (radiant: real)
      modifies this`entries
      ensures entries == HeatPile3D(old(entries), dt, intensity, dist, gauss, coins)
      ensures radiant == RadiantSum3D(entries)
    {
      var n := |entries|;
      ghost var orig := entries;
      radiant := 0.0;
      var i := 0;
      while i < n
        invariant 0 <= i <= n == |entries|
        invariant forall k :: 0 <= k < i ==>
          entries[k] == Heat3D(orig[k], Warmed3D(orig[k], dist(orig[k].pos, HeatPos), dt, intensity, gauss), dt, coins(k))
        invariant forall k :: i <= k < n ==> entries[k] == orig[k]
        invariant radiant == RadiantSum3D(entries[..i])
      {
        var l := entries[i];
        var warm := Warmed3D(l, dist(l.pos, HeatPos), dt, intensity, gauss);
        entries := entries[i := Heat3D(l, warm, dt, coins(i))];
        radiant := radiant + entries[i].glow * 1.5 * 0.2;
        assert entries[..i + 1][..i] == entries[..i];
        i := i + 1;
      }
      assert entries[..n] == entries;
    }

    /** The body of the conduction loop for the pair (i, j). */
    method ExchangeHeat3D(i: nat, j: nat, dt: real, dist: (Vec3, Vec3) -> real)
      requires i < j < |entries|
      modifies this`entries
      ensures |entries| == |old(entries)|
      ensures forall k :: 0 <= k < |entries| ==> entries[k] == old(entries)[k].(temp := entries[k].temp)
      ensures Temps3D(entries) == Exchange(Temps3D(old(entries)), i, j, Coef3D(dist(old(entries)[i].pos, old(entries)[j].pos), dt))
    {
      var a := entries[i];
      var b := entries[j];
      var d := dist(a.pos, b.pos);
      if d < 90.0 {
        var flow := (a.temp - b.temp) * 0.5 * dt * (1.0 / Max(1.0, d / 40.0));
        ghost var ts := Temps3D(entries);
        ghost var c := Coef3D(d, dt);
        assert flow == (ts[i] - ts[j]) * c;
        ExchangeIs(ts, i, j, c);
        Temps3DUpdate(entries, i, a.temp - flow);
        entries := entries[i := a.(temp := a.temp - flow)];
        Temps3DUpdate(entries, j, b.temp + flow);
        entries := entries[j := b.(temp := b.temp + flow)];
        assert Temps3D(entries) == ts[i := ts[i] - flow][j := ts[j] + flow];
        assert Temps3D(entries) == Exchange(ts, i, j, c);
      }
    }

    /** One pass of the inner conduction loop: entry i against every later entry. */
    method ConductRowEntries(i: nat, dt: real, dist: (Vec3, Vec3) -> real, ghost heated: seq<Entry3D>)
      requires i < |entries| == |heated|
      requires forall k :: 0 <= k < |heated| ==> entries[k] == heated[k].(temp := entries[k].temp)
      modifies this`entries
      ensures |entries| == |heated|
      ensures forall k :: 0 <= k < |heated| ==> entries[k] == heated[k].(temp := entries[k].temp)
      ensures Temps3D(entries) == ConductRow(Temps3D(old(entries)), i, i + 1, CoefOf3D(heated, dist, dt))
    {
      ghost var coef := CoefOf3D(heated, dist, dt);
      ghost var row := ConductRow(Temps3D(entries), i, i + 1, coef);
      var j := i + 1;
      while j < |entries|
        invariant i < j <= |entries| == |heated|
        invariant forall k :: 0 <= k < |heated| ==> entries[k] == heated[k].(temp := entries[k].temp)
        invariant ConductRow(Temps3D(entries), i, j, coef) == row
      {
        assert Coef3D(dist(entries[i].pos, entries[j].pos), dt) == coef(i, j);
        ExchangeHeat3D(i, j, dt, dist);
        j := j + 1;
      }
    }

    /** The conduction loops of updateThermal3D: every pair closer than 90 exchanges heat. */
    method ConductEntries(dt: real, dist: (Vec3, Vec3) -> real)
      modifies this`entries
      ensures entries == WithTemps3D(old(entries), Conduct(Temps3D(old(entries)), CoefOf3D(old(entries), dist, dt)))
    {
      var n := |entries|;
      ghost var heated := entries;
      ghost var coef := CoefOf3D(heated, dist, dt);
      ghost var target := Conduct(Temps3D(heated), coef);
      var i := 0;
      while i < n
        invariant 0 <= i <= n == |entries|
        invariant forall k :: 0 <= k < n ==> entries[k] == heated[k].(temp := entries[k].temp)
        invariant ConductFrom(Temps3D(entries), i, coef) == target
      {
        ConductRowEntries(i, dt, dist, heated);
        i := i + 1;
      }
      SameButTemps3D(heated, entries);
    }

    /**
     * updateThermal3D(dt): set the heat light to 1.2 times the global
     * intensity, heat/cool/ignite each entry and sum its radiant glow, then
     * conduct between neighbours.
     */
    method UpdateThermal3D(dt: real, intensity: real, dist: (Vec3, Vec3) -> real, gauss: real -> real, coins: Draws)
      returns (radiant: real)
      requires ready
      modifies this`entries, this`heatIntensity
      ensures heatIntensity == 1.2 * intensity
      ensures entries == ThermalPile3D(old(entries), dt, intensity, dist, gauss, coins)
      ensures radiant == RadiantSum3D(HeatPile3D(old(entries), dt, intensity, dist, gauss, coins))
      ensures 0.0 <= radiant <= 0.3 * |entries| as real
    {
      heatIntensity := 1.2 * intensity;
      HeatPile3DGlow(entries, dt, intensity, dist, gauss, coins);
      radiant := HeatEntries(dt, intensity, dist, gauss, coins);
      RadiantBounded3D(entries);
      ConductEntries(dt, dist);
    }
  }
}
