# Meteor impact and deflection — a Dafny model of `main.js`

`main.js` is a three.js page. It shows the Earth, lets the user pick a target point
by clicking the globe, and launches a meteor at that point with the simulate button.
Each animation frame moves the meteor by a fixed velocity. When the meteor comes
within 0.05 scene units of the target, the frame creates a particle explosion and
retires the meteor. The deflect button gives the meteor a sideways push whose size
depends on its speed and mass, unless the meteor is already within 0.5 of the target.
Each explosion fades over about two seconds of frames and then leaves the scene.

The model covers the page's state and everything that changes it:

- `Geometry` holds vectors, `clamp`, and three.js's `normalize`. A length is never
  computed. The caller passes it in together with the fact that it squares to the
  squared norm.
- `Explosions` holds the closure `createExplosion` registers, as the datatype
  `Explosion`. It also holds the per-frame pool maintenance (update every entry, keep
  the live ones) and the particle fill loop, kept on its two `Float32Array` buffers.
- `Flight` holds the straight approach, the impact threshold, the frame count to
  impact, the deflection impulse and its direction.
- `Simulation` holds the class `SimState`: the page's module-level variables as
  fields, and the click, simulate, deflect and frame handlers as methods. The scene
  is the set of meteor, marker and deflector meshes it currently holds, each with a
  fresh identity. Ghost counters `created` and `released` track how many explosions
  were created and how many had their points removed.

What is proved, in the system's terms:

- Each explosion is alive for exactly 120 updates and dies on its 121st. Its opacity
  only falls. Its points leave the scene exactly once.
- The pool holds only live explosions, in their order. Every frame updates each
  entry once. Every explosion ever created is either in the pool or removed from the
  scene.
- A spawned meteor heads straight at the target at 0.02 per frame from
  `target + (2, 2, 2)`. Each frame brings it exactly 0.02 closer, so it strikes after
  `ImpactTicks(s)` frames and cannot jump past the impact radius. That flight
  produces exactly one explosion (`SimulateUntilImpact`).
- A deflection is refused within 0.5 of the target. Otherwise it keeps the vertical
  velocity, pushes at right angles to the velocity, and adds exactly `deltaV²` to
  the squared speed. `deltaV` always lies in [5.5e-7, 3.6] for clamped parameters.

The countdown `life` starts at 120, and the test `life--<=0` looks at the value
before the decrement. An explosion is therefore still alive after 120 updates and
is removed by its 121st update, which sets its opacity to 0. Since the frame that
creates it also updates it, the 121st update comes 120 frames after the impact frame.

## Model

| member | source | states |
|---|---|---|
| Geometry.Clamp | main.js:56 | with `min <= max` the result lies in the range; an in-range value is returned unchanged, a low one becomes `min`, a high one `max`; with an inverted range the upper bound wins |
| Geometry.Normalize | main.js:136 | dividing by `length() \|\| 1` yields a unit vector pointing the same way that scales back to the input, and leaves the zero vector zero |
| Explosions.Spawned | main.js:159-171 | `createExplosion` registers a live, well-formed explosion at the given point with life 120, opacity 1 and its points in the scene; see Lifecycle for what its updates do |
| Explosions.Update | main.js:164-170 | one call of the `update` closure keeps the centre, never revives a dead explosion, leaves a dead one unchanged, decrements a live one's life and kills it exactly when the old life was not positive; see UpdateWf, Lifecycle |
| Explosions.UpdateWf | main.js:164-170 | one update keeps an explosion in a reachable state, never raises the opacity, keeps it in [0, 1], removes the points only on the update that kills it, and leaves a dead explosion unchanged |
| Explosions.Lifecycle | main.js:163-170 | after n <= 120 updates the explosion is alive with `life = 120 - n` and the opacity of the previous update; from the 121st update on it is dead, `life = -1`, opacity 0, points removed once |
| Explosions.DiesOn121stUpdate | main.js:163-170 | alive after 120 updates, dead with its points removed after 121 |
| Explosions.LifecycleWf | main.js:163-170 | every state along the lifecycle is well formed and has removed the points at most once |
| Explosions.UpdateAll | main.js:187 | `forEach(e => e.update())` keeps the pool's length and each entry's centre, and revives no entry; see DecayWf |
| Explosions.Decay | main.js:187-188 | a frame's update-then-filter leaves a pool no longer than before holding only live entries; see DecayAppend, DecayWf, SurvivorsCount |
| Explosions.DecayNEmpty | main.js:187-188 | an empty pool stays empty over any number of frames |
| Explosions.Survivors | main.js:188 | the filter result is no longer than the pool and holds only live entries |
| Explosions.SurvivorsCount | main.js:188 | the filter keeps each live entry exactly as often as it occurs and drops every dead one |
| Explosions.SurvivorsAppend | main.js:188 | filtering a concatenation filters each part, so order is kept |
| Explosions.SurvivorsOfLive | main.js:188 | a pool of live entries passes the filter whole |
| Explosions.FilterIdempotent | main.js:188 | filtering an already filtered pool changes nothing |
| Explosions.DecayAppend | main.js:181-188 | an explosion pushed at the end of the pool and surviving its update stays last, behind the surviving older entries |
| Explosions.DecayWf | main.js:187-188 | after a frame every entry in the pool is well formed, live and still has its points in the scene |
| Explosions.ScatterParticles | main.js:143-155 | fills 3000 positions at `center + r·dir` with `r = 0.05 + u·0.05`, every one inside the shell between radius 0.05 and 0.1, and colours every particle (1, 0.2, 0) |
| Explosions.ShellDistance | main.js:149-152 | a particle at radius `0.05 + u·0.05` along a unit direction, `u` in [0, 1), lies in the shell |
| Flight.Hits | main.js:180 | the impact test `distanceTo(targetPos) < 0.05`, compared by squares; a meteor at the target registers |
| Flight.TooClose | main.js:83-85 | the refusal test `distanceTo(targetPos) < 0.5`, compared by squares; every position that registers an impact is too close to deflect |
| Flight.DriftClosedForm | main.js:179 | `Drift`, n frames of `position.add(velocity)`, lands at `pos + n·vel` |
| Flight.CourseDistance | main.js:180 | a meteor on course at distance `s` has squared distance `s²` to the target |
| Flight.CourseStep | main.js:179 | one frame on course moves the meteor exactly 0.02 closer, still on course |
| Flight.DriftOnCourse | main.js:179 | after n frames on course the meteor is `s - 0.02·n` away |
| Flight.ImpactTicks | main.js:180 | the frame count to impact is at least 1, and the distance first falls below 0.05 on that frame |
| Flight.StraightFlightImpact | main.js:178-184 | on course, the distance after k frames is `s - 0.02·k`; no frame before `ImpactTicks(s)` hits, and that frame does |
| Flight.SpawnOnCourse | main.js:134-137 | the spawn offset (2, 2, 2) and velocity `0.02·normalize(target - pos)` put the meteor on course at distance `√12`, well beyond the impact radius |
| Flight.SpawnDistance | main.js:134 | the spawn distance `√12` is at least the impact radius |
| Flight.OnCourseFirstImpact | main.js:178-184 | a meteor on course first registers an impact on frame `ImpactTicks(s)` |
| Flight.DeltaV | main.js:91 | `0.01·(velocity/20000)·(1e8/mass)` is positive for a positive velocity and mass; see DeltaVBounds, DeltaVMonotonic |
| Flight.DeltaVBounds | main.js:91 | with clamped velocity and mass the impulse lies in [5.5e-7, 3.6] |
| Flight.DeltaVMonotonic | main.js:91 | a faster meteor gets an impulse no smaller, a heavier one an impulse no larger |
| Flight.DeltaVStrictlyMonotonic | main.js:91 | for positive speeds and masses, a strictly faster meteor gets a strictly larger impulse and a strictly heavier one a strictly smaller impulse |
| Flight.Deflected | main.js:92-93 | `velocity + deltaV·normalize(velocity × up)` keeps the vertical component; see DeflectionSideways |
| Flight.DeflectionSideways | main.js:92-93 | the impulse keeps the vertical component and is at right angles to the velocity; it adds exactly `deltaV²` to the squared speed; it is zero exactly when the velocity is vertical |
| Simulation.SimState.constructor | main.js:67-71 | starts with no meteor, no explosions, an empty scene and parameters 1e8, 20000, 1e7 |
| Simulation.SimState.Simulate | main.js:74-79 | the three inputs are clamped to [1e6, 1e12], [11000, 72000] and [1e6, 1e9], then a meteor is spawned |
| Simulation.SimState.SpawnMeteor | main.js:130-139 | the previous meteor leaves the scene; a fresh one appears at `target + (2, 2, 2)` and becomes active, on course with speed 0.02 toward the target; the state invariant is kept |
| Simulation.SimState.Deflect | main.js:81-101 | with no meteor, or within 0.5 of the target, nothing changes; otherwise the velocity gets the impulse `deltaV·normalize(velocity × up)` and the deflector cone is replaced at meteor + (0.2, 0.2, 0.2) |
| Simulation.SimState.Pick | main.js:113-127 | a hit moves the target to the hit point and replaces the marker there; a miss changes nothing |
| Simulation.SimState.Tick | main.js:178-188 | an active meteor moves by its velocity; on a hit exactly one explosion is created at the target, the meteor leaves the scene and turns inactive; then the pool becomes `Decay` of the pool including the new entry |
| Simulation.SimState.Advance | main.js:178-185 | the meteor step of a frame, with the hit test and the explosion it creates |
| Simulation.SimState.UpdateAndPrune | main.js:187-188 | each explosion is updated once in place and the pool keeps the live ones in order; every entry the update killed has had its points removed exactly once, and `released` grows by the number of entries dropped |
| Simulation.SimState.RunUntilImpact | main.js:175-188 | frames from an active meteor whose first hit comes at frame n: exactly n frames pass, the last one hits, and exactly one explosion joins the pool |
| Simulation.SimState.FlightFrame | main.js:175-188 | a frame before the first hit only moves the meteor and decays the pool; the frame of the first hit adds the explosion |
| Simulation.SimulateUntilImpact | main.js:175-188 | on a fresh page, the simulate button (main.js:74-79) then frames until impact: the meteor strikes after `ImpactTicks(√12)` frames and leaves exactly one explosion, at the target, in the pool |
| Simulation.KeepAlive | main.js:188 | the loop computes the filter of the pool |
| Simulation.SpawnVelocity | main.js:136-137 | `normalize(d)·0.02` equals `d` scaled by `0.02/\|d\|` |

## Left out

- Rendering, the camera, lights, textures, orbit controls, the starfield, the Fresnel
  material, and window resizing. They do not affect the simulated state.
- `requestAnimationFrame` and `renderer.render`: `Tick` is one frame, and a sequence
  of frames is a sequence of calls.
- Raycasting. The click handler's ray test against the globe becomes the parameter
  `hit: Option<Vec3>`. The deflect handler's predicted-impact ray only logs to the
  console and is left out with `console.log`.
- `latLonToXYZ` and the initial target `latLonToXYZ(26, 30, 1)`. They need
  trigonometry, so the initial target is a constructor parameter.
- `Math.sqrt` inside `length`, `normalize` and `distanceTo`. A length enters as a
  parameter with the fact that it squares to the squared norm, and distances are
  compared by their squares.
- `Math.random`, `Math.sin`, `Math.cos` and `Math.acos` in the particle loop. Each
  particle's unit direction and radius draw enter as data.
- Floating point. Reals are exact, with no `Float32Array` or double rounding, so a
  flight whose distance sits within rounding of a multiple of 0.02 may take one frame
  more or fewer in the browser.
- `parseFloat` of an empty or non-numeric field gives `NaN`, and `Math.max`/`Math.min`
  pass `NaN` through, so the page can store `NaN` parameters. The inputs are modelled
  as reals.
- `alert` and `console.log`. The alert becomes the `TooLate` outcome.
- `lookAt` on the deflector cone, the meshes' geometry and material, and the
  `deflecting` flag, which is set but never read.
- The `shockwaves` and `rings` arrays, which are declared but never used.
- Simulation.SimState.SpawnMeteor: the length of the offset (2, 2, 2) is a parameter
  rather than the constant `√12`.
- Simulation.SimState.Deflect: the length of `velocity × up` is a parameter.
- Simulation.SimState.RunUntilImpact: frames are counted up to the first hit, which
  `StraightFlightImpact` supplies for a meteor on course. Frames after the impact and
  user input between frames are separate calls.
