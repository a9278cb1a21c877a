# Campfire simulation model

A Dafny model of the simulation core of *my-cousins-fire-sim*, a browser campfire toy. The player drops tinder, kindling or logs onto a pile and lights it. Each frame:

- the fire burns energy;
- its intensity drifts toward a target set by the energy left;
- the logs heat, ignite and pass heat to each other;
- flame particles and smoke puffs rise and fade;
- in 3D mode, a fixed pool of 320 flame sprites is recycled.

The model follows the source module by module:

| Dafny module | file | source |
|---|---|---|
| `FireMath` | `math.dfy` | `src/math.js` (the vector helpers are a class, mutated in place) |
| `FireState` | `state.dfy` | `src/state.js` (the shared `state` object is the class `State`) |
| `PileRules` | `pile.dfy` | rules shared by `src/logs.js` and `src/logs3d.js` |
| `Logs2D` | `logs.dfy` | `src/logs.js` |
| `Logs3D` | `logs3d.dfy` | `src/logs3d.js` (the module's `logs3d` array and `heatPoint` are the class `Pile3D`) |
| `Fire` | `fire.dfy` | `src/fire.js` |
| `Flame3D` | `flame3d.dfy` | `src/flame3d.js` (the module's `pool` is the class `FlamePool`) |
| `Sim` | `sim.dfy` | `src/sim.js` |
| `Ui` | `ui.dfy` | the state-changing part of `src/ui.js` |

`PileRules` holds the rules both pile modules implement:

- the 60-piece first-in-first-out cap;
- the five-per-row grid;
- the pairwise conduction pass over the pile's temperatures.

Each piece of state that the source changes in place is modelled as imperative Dafny:

- the particle, smoke and log lists;
- the 3D entries and the sprite pool;
- the fire's scalar fields.

The methods have the source's loops, and each method is proved against a specification function. The properties of those specification functions are proved as lemmas.

Numbers are `real`. `Math.random()` is a stream of draws in [0, 1), with one stream per consumer. `Math.exp(-x)`, `Math.pow(x, 1.8)` and `distanceTo` are function parameters. Preconditions state only the range facts a proof needs about them.

In `src/logs3d.js:85` the 3D heating gain is scaled by `1 - 0.1*row` with no lower clamp, whereas the 2D pile clamps its row falloff at 0.25. A new entry starts on row 0 (`src/logs3d.js:40`), and only `layoutLogs3D` (`src/logs3d.js:46-65`) sets a higher row. No source file in this model calls `layoutLogs3D`. If it does run on a full pile, the twelfth row (entries 56 to 60) gets a negative gain, and the flame then cools those entries. The model keeps that behaviour. `Logs3D.RowFactor` states the sign of the factor. `Logs3D.Warmed3DByIntensity` states that on such a row a stronger fire leaves the entry no warmer.

## Model

| member | source | states |
|---|---|---|
| FireMath.FracPart | src/logs.js:12-13 | JavaScript `x % 1`: in [0, 1) for x ≥ 0 and in (−1, 0] for x < 0 |
| FireMath.Round | src/ui.js:100-101 | `Math.round`: the result is within half a unit of x, and halves round up |
| FireMath.Clamp | src/math.js:3 | For lo ≤ hi, the result lies in [lo, hi]. A value already in range is returned unchanged, and values outside are pinned to the nearer bound |
| FireMath.Clamp01 | src/math.js:3 | The default bounds 0 and 1: the result is in [0, 1], identity inside, 0 below and 1 above |
| FireMath.Lerp | src/math.js:4-5 | lerp(a,b,0)=a and lerp(a,b,1)=b. For t in [0,1] the result lies between a and b |
| FireMath.Smoothstep | src/math.js:7 | The result is in [0,1]. For e0 < e1 it is 0 when x ≤ e0 and 1 when x ≥ e1 |
| FireMath.Vec2.constructor | src/math.js:10 | A vector with the given components |
| FireMath.Add | src/math.js:11 | Overwrites a with the componentwise sum and returns a. b is unchanged unless it is a |
| FireMath.Mul | src/math.js:12 | Scales both components of a by s and returns a |
| FireMath.FuelSecondsToEnergy | src/math.js:16-21 | Dividing the energy by 30 gives back the seconds, and the energy is non-negative exactly when the seconds are |
| FireMath.FuelEnergyLinear | src/math.js:16-21 | fuelSecondsToEnergy is linear (additive and homogeneous) |
| FireMath.FuelEnergyIncreasing | src/math.js:16-21 | fuelSecondsToEnergy is strictly increasing |
| FireState.FuelSecondsOrdered | src/state.js:2 | Listed burn seconds are ordered tinder < kindling < log |
| FireState.State.constructor | src/state.js:4-17 | The initial state: out, no energy, intensity and score 0, empty lists, carry 0, 3D mode on, sparkiness 1 |
| FireState.State.Reset | src/state.js:19-28 | Clears the fire, score, lists and carry. Keeps t, use3D and sparkiness. A second reset changes nothing |
| PileRules.Newest | src/logs.js:30 | The last n elements, with length min(n, \|s\|) |
| PileRules.Push | src/logs.js:14-30 | From a pile of at most 60, push-then-shift gives length min(old+1, 60). The pile is the 60 newest of old+[x], and x is last |
| PileRules.PushAllKeepsNewest | src/logs.js:30 | After any sequence of insertions the pile holds exactly the 60 most recent, oldest first |
| PileRules.GridSlot | src/logs.js:39-41 | Piece i is at row ⌊i/5⌋, column i mod 5, and i = 5·row + col. Its row holds between col+1 and 5 pieces |
| PileRules.GridNeighbours | src/logs.js:39-41 | The next piece in a row is in the next column of a row of the same size. The piece five further on is one row up in the same column. A row runs from column 0 to its count − 1 |
| PileRules.RowsInOrder | src/logs.js:39-40 | A later piece never sits on a lower row, nor further left within the same row |
| PileRules.SameRowIsBlock | src/logs.js:39 | Two pieces share a row exactly when they lie in the same block of five |
| PileRules.Exchange | src/logs.js:116-118 | One pair's exchange moves the same amount out of i and into j. It keeps the sum and leaves every other piece alone. With c ≥ 0, heat flows from hot to cold, and c = 0 changes nothing |
| PileRules.ConductRow | src/logs.js:111-120 | The inner pair loop preserves the length and the sum of temperatures |
| PileRules.ConductFrom | src/logs.js:109-121 | The outer pair loop preserves the length and the sum of temperatures |
| PileRules.ConductConserves | src/logs.js:109-121 | The whole conduction pass leaves the sum of all temperatures unchanged |
| PileRules.ConductPairSymmetric | src/logs.js:116-118 | With two pieces, what one loses the other gains |
| Logs2D.NewLog | src/logs.js:6-29 | A new log: not burning, ember 0, row 0, of the given kind. temp is in [30,40), moisture in [0.08,0.20), surface in [0.05,0.22) and mass in its kind's range. Jitter is bounded |
| Logs2D.AddLog | src/logs.js:6-31 | addLog appends the new log and shifts the oldest once past 60 |
| Logs2D.KindScale | src/logs.js:51 | The kind scale lies in (0, 1] |
| Logs2D.Place | src/logs.js:38-54 | Log i gets row ⌊i/5⌋ and width (120−8·row)·k. Only pos, rot, width, height and row change |
| Logs2D.LayoutLogs | src/logs.js:35-56 | The loop leaves the pile equal to the arranged pile |
| Logs2D.ArrangedIsStable | src/logs.js:35-56 | Laying out twice is the same as laying out once |
| Logs2D.ArrangedColumns | src/logs.js:38-44 | Neighbours within a row are in consecutive columns, and their jitter-free x positions are 74 apart |
| Logs2D.ArrangedRows | src/logs.js:38-45 | The log five further on sits one row up, and its jitter-free y is 16 smaller |
| Logs2D.ArrangedCentred | src/logs.js:38-44 | Each row is centred on cx: its first and last logs lie symmetrically about cx |
| Logs2D.WidthShrinksUpward | src/logs.js:49-52 | Among logs of one kind, a later (higher) log is never wider |
| Logs2D.WarmedRelaxesToAir | src/logs.js:80-90 | With intensity 0 and a cooling share of at most 1, flame heating and air cooling leave the temperature between its old value and the air temperature |
| Logs2D.FlameHeatMonotone | src/logs.js:80-86 | The flame heat is non-negative for non-negative intensity and does not decrease as the intensity rises |
| Logs2D.WarmedMonotone | src/logs.js:80-90 | With a cooling share of at most 1, a stronger fire never leaves a log cooler after heating and cooling |
| Logs2D.Radiance | src/logs.js:93-94 | A log adds between 0 and 1.8 × its surface to the radiant total, and nothing when at or below 100° |
| Logs2D.Heat | src/logs.js:97-105 | Burning is one-way. Ignition happens exactly when the log is hot (> 280), dry (< 0.12) and the roll is below 0.15·dt. Ember never exceeds 1 and does not fall. Moisture never rises and stays ≥ 0. Moisture and ember change only while burning. Nothing else changes |
| Logs2D.ArrangedKeepsSurface | src/logs.js:54 | Layout keeps every log's surface, and so the pile's total surface |
| Logs2D.RadiantBounded | src/logs.js:92-94 | The radiant total is ≥ 0 and at most 1.8 × the sum of surfaces |
| Logs2D.ThermalPerLog | src/logs.js:75-121 | After a thermal step each log has the guarantees of Heat. Burning is one-way. A log ignites exactly when it was not burning, its warmed temperature is above 280, its moisture is below 0.12 and the roll is below 0.15·dt. Ember stays ≤ 1 and does not fall, and moisture never rises and stays ≥ 0. Ember and moisture change only while burning. Only its temperature, ember, moisture and burning flag differ |
| Logs2D.ThermalConductionConserves | src/logs.js:108-121 | The conduction half of the thermal step leaves the temperature sum unchanged |
| Logs2D.WetLogNeverIgnites | src/logs.js:100-104 | A log that is not burning and has moisture ≥ 0.12 never ignites, over any number of thermal steps |
| Logs2D.HeatLogs | src/logs.js:75-106 | The first loop leaves the pile heated log by log and returns the radiant total |
| Logs2D.Coef2D | src/logs.js:113-117 | The share of the difference that flows is between 0 and 0.6·dt for dt ≥ 0, and 0 when the logs are 80 or more apart |
| Logs2D.Coef2DSymmetric | src/logs.js:113-117 | The share is the same whichever log of the pair comes first |
| Logs2D.ExchangeHeat | src/logs.js:112-119 | One pair of the nested loop changes only two temperatures, as Exchange does, with the zero coefficient beyond 80 units |
| Logs2D.ConductRowLogs | src/logs.js:111-120 | The inner loop for log i performs ConductRow's pass from i + 1 on the temperatures and changes nothing else of any log |
| Logs2D.ConductLogs | src/logs.js:109-121 | The nested loops perform the conduction pass on the temperatures and touch nothing else |
| Logs2D.SimulateLogThermal | src/logs.js:60-123 | simulateLogThermal leaves the pile in the specified thermal state and returns its radiant total |
| Logs3D.NewEntry | src/logs3d.js:35-40 | A new entry: not burning, ember 0, row 0, temp in [30,40), moisture in [0.1,0.2) |
| Logs3D.Place3D | src/logs3d.js:51-63 | Entry i gets row ⌊i/5⌋ and y = 30+12·row+jy. Even rows get z = −18+jz and odd rows z = 18+jz. Only position, yaw and row change |
| Logs3D.Arranged3DIsStable | src/logs3d.js:46-65 | Laying out twice is the same as laying out once |
| Logs3D.RowFactor | src/logs3d.js:85 | The row factor is at most 1. It is zero on row 10 and negative from row 11 on |
| Logs3D.Warmed3DRelaxesToAir | src/logs3d.js:84-88 | With intensity 0 and 0.7·dt ≤ 1, heating and cooling leave the temperature between its old value and 22 |
| Logs3D.Warmed3DByIntensity | src/logs3d.js:84-88 | A stronger fire leaves an entry on row 10 or below no cooler, and an entry on row 11 or above no warmer |
| Logs3D.Coef3D | src/logs3d.js:110-111 | The share of the difference that flows is between 0 and 0.5·dt for dt ≥ 0, and 0 at distance 90 or more |
| Logs3D.Heat3D | src/logs3d.js:90-95 | Burning is one-way, and a burning entry's ember becomes min(1, ember + 0.12·dt). Ignition happens exactly when hot, dry and the roll is below 0.12·dt. The glow is in [0,1]. Moisture is never written |
| Logs3D.HeatPile3DGlow | src/logs3d.js:83-103 | Every entry's glow after the heating loop lies in [0,1] |
| Logs3D.RadiantBounded3D | src/logs3d.js:95-102 | The radiant total lies in [0, 0.3 × entry count] |
| Logs3D.Thermal3DPerEntry | src/logs3d.js:83-113 | After a thermal step each entry has Heat3D's guarantees. An entry ignites exactly when it was not burning, its warmed temperature is above 280, its moisture is below 0.12 and the roll is below 0.12·dt. A burning entry's ember becomes min(1, ember + 0.12·dt), and a non-burning entry's ember is unchanged. Moisture and position are unchanged |
| Logs3D.Thermal3DConductionConserves | src/logs3d.js:106-113 | Conduction between entries closer than 90 preserves the temperature sum |
| Logs3D.WetEntryNeverIgnites | src/logs3d.js:91-92 | An entry that is not burning and has moisture ≥ 0.12 never ignites, over any number of steps |
| Logs3D.Pile3D.constructor | src/logs3d.js:5-9 | Before init: no scene, no entries, the light off |
| Logs3D.Pile3D.InitLogs3D | src/logs3d.js:11-27 | Init makes the pile usable with the light at intensity 0 |
| Logs3D.Pile3D.AddLog3D | src/logs3d.js:29-44 | Appends one entry and shifts the oldest past 60. Before init it adds nothing and reports failure |
| Logs3D.Pile3D.LayoutLogs3D | src/logs3d.js:46-65 | The loop leaves the entries arranged |
| Logs3D.Pile3D.HeatEntries | src/logs3d.js:83-103 | The heating loop leaves the entries heated one by one and returns the glow-based radiant total |
| Logs3D.Pile3D.ExchangeHeat3D | src/logs3d.js:109-111 | One pair changes only two temperatures, with the zero coefficient at distance 90 or more |
| Logs3D.Pile3D.ConductRowEntries | src/logs3d.js:108-112 | The inner loop for entry i performs ConductRow's pass from i + 1 on the temperatures and changes nothing else of any entry |
| Logs3D.Pile3D.ConductEntries | src/logs3d.js:106-113 | The nested loops perform the conduction pass on the entries' temperatures |
| Logs3D.Pile3D.UpdateThermal3D | src/logs3d.js:67-116 | The light becomes 1.2 × intensity. The entries reach the specified thermal state, and the radiant total lies in [0, 0.3 × count] |
| Fire.NewParticle | src/fire.js:4-10 | A new particle has age 0, life in [600,1700) and a position within the spawn box. It rises for intensity ≥ 0 |
| Fire.SpawnFireParticle | src/fire.js:4-11 | Appends exactly one new particle |
| Fire.NewSmoke | src/fire.js:12 | A new puff has age 0, life in [1200,3200), vy in (−40,−20] and vx in [−6,6) |
| Fire.SpawnSmoke | src/fire.js:12 | Appends exactly one new puff |
| Fire.AdvanceParticle | src/fire.js:15-19 | A survivor's age rises by dt, vy falls by 6·dt/1000, and the position moves by the updated velocity × dt/1000 |
| Fire.AdvanceSmoke | src/fire.js:20 | A surviving puff's age rises by dt. Its velocity is unchanged, and its position moves by v·dt/1000 |
| Fire.KeptIsFilter | src/fire.js:15-20 | The kept indices are exactly those whose element survives, each once, in increasing order |
| Fire.StepParticlesIsFilterMap | src/fire.js:14-19 | The particle update is the advanced kept particles, in their original order |
| Fire.StepSmokesIsFilterMap | src/fire.js:20 | The smoke update is the advanced kept puffs, in their original order |
| Fire.ParticleUpdateSpec | src/fire.js:14-19 | Removed particles are exactly those with age+dt > life. Survivors keep their order, age by exactly dt and end with age ≤ life, and the list does not grow |
| Fire.SmokeUpdateSpec | src/fire.js:20 | As for particles. In addition, smoke velocity is unchanged and x advances by vx·dt/1000 |
| Fire.UpdateParticleList | src/fire.js:15-19 | The backwards splice loop leaves exactly the specified particle list |
| Fire.UpdateSmokeList | src/fire.js:20 | The backwards splice loop leaves exactly the specified smoke list |
| Fire.UpdateParticles | src/fire.js:14-21 | updateParticles updates both lists as specified |
| Flame3D.FirstInvisibleFrom | src/flame3d.js:43 | The search returns the first hidden slot from k on, or reports that every slot from k on is visible |
| Flame3D.FirstInvisible | src/flame3d.js:43 | pool.find finds a slot exactly when some sprite is hidden. The slot found is the lowest-index hidden one |
| Flame3D.VisibleCount | src/flame3d.js:69-70 | The visible count never exceeds the pool's length |
| Flame3D.AllVisibleIffFull | src/flame3d.js:43-44 | Every sprite is visible exactly when the visible count equals the pool size |
| Flame3D.NewSprite | src/flame3d.js:45-57 | A spawned sprite is visible, with age 0, opacity 0, life in [0.6,1.8) and a position within the spawn box. For intensity ≥ 0, start size ≥ 12 and upward speed ≥ 18. Its scale is (size, 1.6·size) |
| Flame3D.SpawnedSpec | src/flame3d.js:42-58 | spawn changes only the lowest-index hidden sprite and raises the visible count by one. With every sprite visible it changes nothing and raises no error |
| Flame3D.SpawnCount | src/flame3d.js:63-64 | The number of spawn attempts is the whole part of 120·intensity·dt: never negative for non-negative inputs, and 0 when intensity or dt is 0 |
| Flame3D.SpawnedFromTouchesOnlyHidden | src/flame3d.js:42-65 | A run of spawns changes only sprites that were hidden, and each one it changes becomes visible |
| Flame3D.SpawnedFromCount | src/flame3d.js:63-65 | n spawns make min(visible + n, pool size) sprites visible |
| Flame3D.AgeSprite | src/flame3d.js:69-83 | Hidden sprites are skipped. A sprite whose age reaches its life is hidden. A survivor is younger than its life, moves by its old velocity and has vel.x, vel.z ×0.96 and vel.y +10·dt. With t = age/life its opacity is max(0, 1 − t), in [0,1], and its scale is (size·(1 − 0.5t), size·(1.6 − 1.2t)) |
| Flame3D.AgedSpec | src/flame3d.js:69-83 | After the ageing loop every visible sprite is younger than its life. Hidden sprites are untouched, and no sprite becomes visible |
| Flame3D.FlamePool.constructor | src/flame3d.js:3-4 | Before init there is no group and the pool is empty |
| Flame3D.FlamePool.InitFlame3D | src/flame3d.js:8-15 | The first call fills the pool with 320 hidden sprites. A later call returns early and leaves the pool as it is |
| Flame3D.FlamePool.FindFree | src/flame3d.js:43 | The linear scan returns the lowest-index hidden sprite, or none |
| Flame3D.FlamePool.Spawn | src/flame3d.js:42-58 | The pool after spawn is as specified: the first free slot gets the new sprite, and a full pool is unchanged |
| Flame3D.FlamePool.UpdateFlame3D | src/flame3d.js:60-84 | Does nothing before init. Otherwise it makes ⌊120·intensity·dt⌋ spawn attempts at (0,40,0), then ages the whole pool |
| Flame3D.FlameTickSpec | src/flame3d.js:60-84 | After a tick the pool still holds 320 sprites with at most 320 visible, and at most n more than before. Every visible sprite is younger than its life. The spawns only reveal hidden sprites, and a hidden sprite that no spawn took is left untouched |
| Sim.DtSeconds | src/sim.js:27 | The step is at most 0.06 s. It is dtMs/1000 when dtMs ≤ 60, exactly 0.06 from 60 on, and non-negative for dtMs ≥ 0 |
| Sim.EnergyToSeconds | src/sim.js:15-18 | energyToSeconds is the inverse of fuelSecondsToEnergy |
| Sim.SecondsRoundTrip | src/sim.js:15-18 | Converting seconds to energy and back gives the seconds |
| Sim.TargetIntensity | src/sim.js:20-24 | The target is 0 for E ≤ 0, never above 1, and above 0.12 for E > 0 |
| Sim.BurnRate | src/sim.js:45 | The burn rate is at least 12 when intensity and radiant are non-negative |
| Sim.FlameStep | src/sim.js:32-59 | Energy stays ≥ 0 in the burning branch. The fire is burning after the step exactly when it was burning and energy remains |
| Sim.BurnLowersEnergy | src/sim.js:45-46 | While burning, energy after the step is ≥ 0, at most max(0, E − 12·dt), and at most E |
| Sim.IntensityStaysInUnit | src/sim.js:49-59 | Intensity stays in [0,1]: it is a convex combination with weight min(1, 2·dt), or 0 |
| Sim.ExtinctionStep | src/sim.js:52-53 | The step that empties the store puts the fire out with intensity 0, and only that step does |
| Sim.OutStaysOut | src/sim.js:57-59 | A fire that is out keeps its energy, stays out and has intensity 0 |
| Sim.RunOutStaysOut | src/sim.js:32-60 | A fire that is out stays out over any number of steps |
| Sim.BurnsOut | src/sim.js:45-53 | Without new fuel, a fire is out after n ≥ 1 steps of dt > 0 once 12·dt·n ≥ E |
| Sim.SpawnSplit | src/sim.js:63-65 | Count plus new carry equals 80·intensity·dt + carry. The carry is in [0,1), and the count is ≥ 0 for non-negative inputs |
| Sim.SpawnSplitAccumulates | src/sim.js:64-65 | Across consecutive frames no fraction of a spawn is lost |
| Sim.DeathSmoke | src/sim.js:54 | An extinction puff starts at age 0 within 80 units of the canvas centre |
| Sim.SpawnDeathSmoke | src/sim.js:54 | Exactly ten puffs are appended when the fire goes out |
| Sim.SpawnFlames | src/sim.js:62-67 | The carry becomes the leftover fraction, and exactly ⌊80·intensity·dt + carry⌋ particles are appended |
| Sim.SpawnPhase | src/sim.js:61-67 | Particles are spawned and the carry updated only while burning in 2D mode |
| Sim.FrameLogsKeepsBurning | src/sim.js:33-42 | Over a frame the 2D pile keeps its length and every burning log stays burning. With the fire out or the 3D override in use, the pile is unchanged |
| Sim.FrameRadiantBounded | src/sim.js:33-42 | A frame's radiant total is the override when one applies. Otherwise it lies between 0 and 1.8 × the pile's total surface |
| Sim.FrameHeat | src/sim.js:33-42 | In 3D with an override the override is the radiant total and the logs are untouched. Otherwise the logs are laid out and heated, and their radiant total is used |
| Sim.Burn | src/sim.js:45-53 | The burning branch updates the flame exactly as FlameStep |
| Sim.FireBranch | src/sim.js:32-59 | The fire branch: flame as FlameStep, logs as specified. Ten smoke puffs are added exactly when the fire went out |
| Sim.FireAndSpawn | src/sim.js:27-67 | The step up to the particle update |
| Sim.Step | src/sim.js:26-71 | One frame: flame, logs, smoke, particles and carry as specified, with particles aged by the uncapped dtMs. Its frame leaves score, mode, sparkiness and clock alone, and the HUD shows the new state |
| Ui.EnergyFor | src/ui.js:68 | A deposit adds 30 × the listed seconds, which is positive |
| Ui.EnergyOrdered | src/ui.js:68 | Energy per deposit is ordered tinder < kindling < log |
| Ui.ScoreFor | src/ui.js:78 | Score is 5 exactly for a log, 2 exactly for kindling, and 1 for tinder |
| Ui.BoostFor | src/ui.js:80 | Boost is 0.18 for tinder, 0.28 for kindling and 0.12 for a log |
| Ui.DepositFuel | src/ui.js:66-83 | Energy rises by exactly EnergyFor(kind), and one 2D log of that kind is added, subject to the cap. A 3D entry is added only in 3D mode with the pile initialised. Score rises by ScoreFor. Intensity becomes min(1, I + boost) if burning and is unchanged otherwise |
| Ui.Start | src/ui.js:87-91 | Refused with no state change while burning or with energy ≤ 0. Otherwise the fire is lit with intensity max(I, 0.18) |
| Ui.UpdateHud | src/ui.js:99-102 | The fuel readout is the rounded seconds, never negative. For intensity in [0,1] the bar is in [0,100] |

## Left out

- Drawing: `drawLogs`, `roundRect`, `renderFire`, the main loop's `render`, textures and every Three.js mesh, material, light colour, scene, group and disposal call. Sprites and 3D entries are plain records.
- `src/three-setup.js`, `src/icons.js` and `src/main.js` are not part of this model. This includes the requestAnimationFrame driver that decides when `updateThermal3D` feeds `step`'s radiant override. `src/main.js` also imports `updatePhysics3D` and `getHotSpots`, which `src/logs3d.js` does not define.
- Randomness: `Math.random()` is one global sequence in the browser. Here each consumer reads its own stream of draws in [0, 1): log ignition rolls, log and entry jitter, particles, smoke and sprites. The interleaving of draws between consumers is not modelled.
- `Math.exp`, `Math.pow(x, 1.8)` and `Vector3.distanceTo` are function parameters. Preconditions state only their ranges, and only where a proof needs them: exp(−x) in (0, 1) for x > 0, and x^1.8 ≥ 0 for x ≥ 0.
- IEEE floating point: rounding, NaN and infinities. For example, an unknown fuel type gives NaN energy, `smoothstep` with e0 = e1 divides by zero, and a zero device-pixel ratio divides by zero. `FireMath.Smoothstep` requires e0 ≠ e1 and `Sim.Step` requires a non-zero ratio for this reason.
- Fuel kinds: only tinder, kindling and log exist in the model, so `depositFuel`'s kind test always passes.
- Log ids (`crypto.randomUUID`), `performance.now()` (the constructor takes the time as a parameter), `console.warn`, `showMessage`, the DOM, `tossFuel`'s animation and timers, `resize`, the slider and the keyboard.
- Logs3D.Pile3D.AddLog3D: the source ignores the fuel kind, and when called before `initLogs3D` it throws. `depositFuel` catches the throw. The model returns false and adds nothing.
- Logs3D.Pile3D.UpdateThermal3D: requires initialisation, because the source would throw on the missing light. The caller is not part of this model.
- Logs2D.Heat: the ember guarantee "never decreases" is stated only for ember ≤ 1 and dt ≥ 0. An ember above 1 cannot arise from a new log, and a larger one would be cut to 1.
- A 2D log's `width` and `height` do not exist until the first layout. The model starts them at 0.
- The third argument that the main loop passes to `updateFlame3D` is ignored by the source and is not modelled.
