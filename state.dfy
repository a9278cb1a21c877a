/** The shared simulation record and the fuel table (src/state.js). */
module FireState {
  import opened FireMath

  datatype FuelKind = Tinder | Kindling | Log

  /** FUEL: listed burn seconds of each kind. */
  function FuelSeconds(kind: FuelKind): real
  {
    match kind
    case Tinder => 8.0
    case Kindling => 25.0
    case Log => 120.0
  }

  lemma FuelSecondsOrdered()
    ensures FuelSeconds(Tinder) < FuelSeconds(Kindling) < FuelSeconds(Log)
  {
  }

  datatype Point = Point(x: real, y: real)

  /**
   * One piece of fuel in the 2D pile. `width` and `height` do not exist on
   * a fresh log until the first layout; the model starts them at 0.
   */
  datatype Log2D = Log2D(
    temp: real,
    moisture: real,
    mass: real,
    surface: real,
    burning: bool,
    heat: real,
    ember: real,
    pos: Point,
    rot: real,
    seed: real,
    row: nat,
    jx: real,
    jy: real,
    jrot: real,
    kind: FuelKind,
    width: real,
    height: real)

  /** A 2D flame particle; ages and lives are in milliseconds. */
  datatype Particle = Particle(x: real, y: real, vx: real, vy: real, life: real, age: real, size: real, seed: real)

  /** A 2D smoke puff; ages and lives are in milliseconds. */
  datatype Smoke = Smoke(x: real, y: real, vx: real, vy: real, age: real, life: real, size: real)

  /** The one `state` object every module reads and writes. */
  class State {
    var alive: bool
    var energy: real
    var intensity: real
    var score: int
    var particles: seq<Particle>
    var smokes: seq<Smoke>
    var logs: seq<Log2D>
    var spawnCarry: real
    var t: real
    var use3D: bool
    var sparkiness: real

    /** The initial object; `now` stands for performance.now() at load time. */
    constructor (now: real)
      ensures !alive && energy == 0.0 && intensity == 0.0 && score == 0
      ensures particles == [] && smokes == [] && logs == [] && spawnCarry == 0.0
      ensures t == now && use3D && sparkiness == 1.0
    {
      alive := false;
      energy := 0.0;
      intensity := 0.0;
      score := 0;
      particles := [];
      smokes := [];
      logs := [];
      spawnCarry := 0.0;
      t := now;
      use3D := true;
      sparkiness := 1.0;
    }

    /** Everything that reset() clears is cleared. */
    predicate Cleared()
      reads this
    {
      !alive && energy == 0.0 && intensity == 0.0 && score == 0
      && particles == [] && smokes == [] && logs == [] && spawnCarry == 0.0
    }

    /**
     * reset(): clears the fire, the score and all three lists, and keeps the
     * mode flag, the spark slider and the clock. A second reset changes nothing.
     */
    method Reset()
      modifies this
      ensures Cleared()
      ensures t == old(t) && use3D == old(use3D) && sparkiness == old(sparkiness)
      ensures old(Cleared()) ==> unchanged(this)
    {
      alive := false;
      energy := 0.0;
      intensity := 0.0;
      score := 0;
      particles := [];
      smokes := [];
      logs := [];
      spawnCarry := 0.0;
    }
  }
}
