/**
 * The state-changing part of the controls (src/ui.js): dropping fuel on
 * the fire, the start button, and the numbers the HUD shows.
 */
module Ui {
  import opened FireMath
  import opened FireState
  import opened PileRules
  import opened Logs2D
  import opened Logs3D

  /** Energy units one piece of fuel adds: its listed seconds times the energy scale. */
  function EnergyFor(kind: FuelKind): (e: real)
    ensures e == EnergyScale * FuelSeconds(kind)
    ensures 0.0 < e
  {
    FuelSecondsToEnergy(FuelSeconds(kind))
  }

  /** A log is worth the most energy and tinder the least. */
  lemma EnergyOrdered()
    ensures EnergyFor(Tinder) < EnergyFor(Kindling) < EnergyFor(Log)
  {
    FuelSecondsOrdered();
    FuelEnergyIncreasing(FuelSeconds(Tinder), FuelSeconds(Kindling));
    FuelEnergyIncreasing(FuelSeconds(Kindling), FuelSeconds(Log));
  }

  /** Points for a deposit: log 5, kindling 2, anything else 1. */
  function ScoreFor(kind: FuelKind): (s: int)
    ensures 1 <= s <= 5
    ensures s == 5 <==> kind == Log
    ensures s == 2 <==> kind == Kindling
    ensures kind == Tinder ==> s == 1
  {
    if kind == Log then 5 else if kind == Kindling then 2 else 1
  }

  /** The intensity kick a deposit gives a burning fire: tinder 0.18, kindling 0.28, anything else 0.12. */
  function BoostFor(kind: FuelKind): (b: real)
    ensures 0.12 <= b <= 0.28
    ensures kind == Tinder ==> b == 0.18
    ensures kind == Kindling ==> b == 0.28
    ensures kind == Log ==> b == 0.12
  {
    if kind == Tinder then 0.18 else if kind == Kindling then 0.28 else 0.12
  }

  /**
   * depositFuel(type): add the fuel's energy, append one 2D log of that
   * kind, add a 3D log when 3D is on (an uninitialised 3D pile throws and the
   * error is swallowed, so nothing is added there), score the deposit, and
   * boost a burning fire's intensity, capped at 1. `d2` and `d3` are the
   * random draws of the 2D and 3D log.
   */
  method DepositFuel(st: State, pile: Pile3D, kind: FuelKind, d2: Draws, d3: Draws)
    requires Uniform(d2) && Uniform(d3)
    modifies st`energy, st`logs, st`score, st`intensity, pile`entries
    ensures st.energy == old(st.energy) + EnergyFor(kind)
    ensures st.logs == Push(old(st.logs), NewLog(kind, d2))
    ensures pile.entries == if st.use3D && pile.ready then Push(old(pile.entries), NewEntry(d3)) else old(pile.entries)
    ensures st.score == old(st.score) + ScoreFor(kind)
    ensures st.alive ==> st.intensity == Min(1.0, old(st.intensity) + BoostFor(kind))
    ensures !st.alive ==> st.intensity == old(st.intensity)
  {
    st.energy := st.energy + FuelSecondsToEnergy(FuelSeconds(kind));
    AddLog(st, kind, d2);
    if st.use3D {
      var _ := pile.AddLog3D(d3);
    }
    st.score := st.score + ScoreFor(kind);
    if st.alive {
      st.intensity := Min(1.0, st.intensity + BoostFor(kind));
    }
  }

  /** Which message the start button shows. */
  datatype StartOutcome = AlreadyBurning | NoFuel | Started

  /**
   * The start button: refused while burning or without energy, with no
   * state change; otherwise the fire is lit with intensity at least 0.18.
   */
  method Start(st: State) returns (outcome: StartOutcome)
    modifies st`alive, st`intensity
    ensures old(st.alive) ==> outcome == AlreadyBurning
    ensures !old(st.alive) && old(st.energy) <= 0.0 ==> outcome == NoFuel
    ensures outcome != Started ==> st.alive == old(st.alive) && st.intensity == old(st.intensity)
    ensures outcome == Started <==> !old(st.alive) && old(st.energy) > 0.0
    ensures outcome == Started ==> st.alive && st.intensity == Max(old(st.intensity), 0.18)
  {
    if st.alive {
      return AlreadyBurning;
    }
    if st.energy <= 0.0 {
      return NoFuel;
    }
    st.alive := true;
    st.intensity := Max(st.intensity, 0.18);
    return Started;
  }

  /** The two numbers updateHUD writes: the bar width in percent and the seconds of fuel left. */
  datatype Hud = Hud(barPercent: int, fuelSeconds: int)

  /**
   * updateHUD(approxSeconds): the bar is the rounded intensity in percent;
   * the fuel readout is the rounded seconds, never below zero.
   */
  function UpdateHud(approxSeconds: real, intensity: real): (h: Hud)
    ensures 0 <= h.fuelSeconds
    ensures -0.5 <= approxSeconds ==> approxSeconds - 0.5 < h.fuelSeconds as real <= approxSeconds + 0.5
    ensures approxSeconds < -0.5 ==> h.fuelSeconds == 0
    ensures 0.0 <= intensity <= 1.0 ==> 0 <= h.barPercent <= 100
    ensures intensity * 100.0 - 0.5 < h.barPercent as real <= intensity * 100.0 + 0.5
  {
    var secs := Round(approxSeconds);
    Hud(Round(intensity * 100.0), if 0 >= secs then 0 else secs)
  }
}
