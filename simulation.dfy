/** The module-level state of main.js and the handlers that change it: the simulate
    and deflect buttons, the click that picks a target, `spawnMeteor`, and the meteor
    and explosion part of one `animate` frame. */
module Simulation {
  import opened Geometry
  import opened Explosions
  import opened Flight

  datatype Option<T(==)> = None | Some(value: T) {
    function Elems(): set<T> {
      if Some? then {value} else {}
    }
  }

  /** The meshes the handlers put into the scene and take out again; `id` tells apart
      the successive meshes of one kind. */
  datatype Mesh = MeteorMesh(id: nat) | MarkerMesh(id: nat) | DeflectorMesh(id: nat)

  /** What a press of the deflect button did: nothing (no meteor in flight), the
      "Too late to deflect!" alert, or an impulse of size `deltaV`. */
  datatype DeflectOutcome = NoMeteor | TooLate | Impulse(deltaV: real)

  /** The deflector cone appears at the meteor's position plus (0.2, 0.2, 0.2). */
  const DeflectorOffset: Vec3 := Vec3(0.2, 0.2, 0.2)

  class SimState {
    var targetPos: Vec3
    var meteorMesh: Option<Mesh>
    var meteorPos: Vec3
    var meteorVelocity: Vec3
    var meteorActive: bool
    var explosions: seq<Explosion>
    var mass: real
    var velocity: real
    var strength: real
    var markerMesh: Option<Mesh>
    var markerPos: Vec3
    var deflectorMesh: Option<Mesh>
    var deflectorPos: Vec3
    /** The meteor, marker and deflector meshes currently in the scene. */
    var scene: set<Mesh>
    var nextMeshId: nat
    /** Explosions created so far, and calls of `scene.remove(points)` so far. The call
        happens in the update that kills an explosion, and that same frame drops it from
        the pool, so `released` grows by the number of entries a frame drops. */
    ghost var created: nat
    ghost var released: nat

    /** The parameters stay within their clamp bounds; at most one meteor, one marker
        and one deflector are in the scene, each the one the state refers to, and the
        meteor is there exactly while it is active; the pool holds only live, well
        formed explosions, and every explosion ever created is either in the pool or
        has had its points removed once. */
    ghost predicate Valid()
      reads this
    {
      ParamsInRange(mass, velocity, strength) && SceneValid() && PoolValid()
    }

    /** Each mesh the state refers to is in the scene, the meteor's only while it is
        active, and every mesh in the scene is the one the state refers to. */
    ghost predicate SceneValid()
      reads this`meteorActive, this`meteorMesh, this`markerMesh, this`deflectorMesh
      reads this`scene, this`nextMeshId
    {
      (meteorActive ==> meteorMesh.Some? && meteorMesh.value in scene) &&
      (meteorMesh.Some? ==> meteorMesh.value.MeteorMesh? && meteorMesh.value.id < nextMeshId) &&
      (markerMesh.Some? ==> markerMesh.value.MarkerMesh? && markerMesh.value in scene) &&
      (deflectorMesh.Some? ==> deflectorMesh.value.DeflectorMesh? && deflectorMesh.value in scene) &&
      (forall m | m in scene ::
        m.id < nextMeshId &&
        (m.MeteorMesh? ==> meteorActive && meteorMesh == Some(m)) &&
        (m.MarkerMesh? ==> markerMesh == Some(m)) &&
        (m.DeflectorMesh? ==> deflectorMesh == Some(m)))
    }

    /** The pool holds only live, well-formed explosions, and every explosion created so
        far is either in the pool or has had its points removed exactly once. */
    ghost predicate PoolValid()
      reads this`explosions, this`created, this`released
    {
      (forall e | e in explosions :: Wf(e) && e.alive) &&
      created == released + |explosions|
    }

    /** The state main.js sets up before the first frame; `target` is the host's
        `latLonToXYZ(26, 30, 1)`. */
    constructor (target: Vec3)
      ensures Valid()
      ensures targetPos == target && !meteorActive && meteorMesh == None
      ensures explosions == [] && scene == {} && created == 0 && released == 0
      ensures mass == 100000000.0 && velocity == 20000.0 && strength == 10000000.0
    {
      targetPos := target;
      meteorMesh := None;
      meteorPos := Zero;
      meteorVelocity := Zero;
      meteorActive := false;
      explosions := [];
      mass, velocity, strength := 100000000.0, 20000.0, 10000000.0;
      markerMesh, markerPos := None, Zero;
      deflectorMesh, deflectorPos := None, Zero;
      scene := {};
      nextMeshId := 0;
      created, released := 0, 0;
    }

    /** `spawnMeteor`: whatever the prior state, the previous meteor leaves the scene and
        a new one is added at `targetPos + (2, 2, 2)`, moving at 0.02 per frame straight
        at the target, which is `offsetLength` (the host's length of the offset) away. */
    method SpawnMeteor(offsetLength: real)
      requires Valid() && IsLength(SpawnOffset, offsetLength)
      modifies this`meteorMesh, this`meteorPos, this`meteorVelocity, this`meteorActive
      modifies this`scene, this`nextMeshId
      ensures Valid()
      ensures meteorActive && meteorMesh.Some? && meteorMesh.value !in old(scene)
      ensures scene == old(scene) - old(meteorMesh).Elems() + {meteorMesh.value}
      ensures meteorPos == Add(targetPos, SpawnOffset)
      ensures meteorVelocity == Scale(Sub(targetPos, meteorPos), Step / offsetLength)
      ensures NormSq(meteorVelocity) == Step * Step
      ensures OnCourse(meteorPos, meteorVelocity, targetPos, offsetLength)
    {
      if meteorMesh.Some? {
        scene := scene - {meteorMesh.value};
      }
      var mesh := MeteorMesh(nextMeshId);
      nextMeshId := nextMeshId + 1;
      meteorMesh := Some(mesh);
      meteorPos := Add(targetPos, SpawnOffset);
      scene := scene + {mesh};
      SpawnOnCourse(targetPos, offsetLength);
      var dir := Normalize(Sub(targetPos, meteorPos), offsetLength);
      meteorVelocity := Scale(dir, Step);
      meteorActive := true;
      SpawnVelocity(Sub(targetPos, meteorPos), offsetLength);
    }

    /** The simulate button: the three inputs are clamped into their bounds and a fresh
        meteor is spawned. */
    method Simulate(massInput: real, velocityInput: real, strengthInput: real, offsetLength: real)
      requires Valid() && IsLength(SpawnOffset, offsetLength)
      modifies this`mass, this`velocity, this`strength
      modifies this`meteorMesh, this`meteorPos, this`meteorVelocity, this`meteorActive
      modifies this`scene, this`nextMeshId
      ensures Valid()
      ensures mass == Clamp(massInput, MinMass, MaxMass)
      ensures velocity == Clamp(velocityInput, MinVelocity, MaxVelocity)
      ensures strength == Clamp(strengthInput, MinStrength, MaxStrength)
      ensures meteorActive && meteorMesh.Some? && meteorMesh.value !in old(scene)
      ensures scene == old(scene) - old(meteorMesh).Elems() + {meteorMesh.value}
      ensures meteorPos == Add(targetPos, SpawnOffset)
      ensures OnCourse(meteorPos, meteorVelocity, targetPos, offsetLength)
    {
      mass := Clamp(massInput, MinMass, MaxMass);
      velocity := Clamp(velocityInput, MinVelocity, MaxVelocity);
      strength := Clamp(strengthInput, MinStrength, MaxStrength);
      SpawnMeteor(offsetLength);
    }

    /** The deflect button. With no meteor in flight nothing happens; within 0.5 of the
        target the alert fires and nothing changes; otherwise the velocity receives the
        sideways impulse `deltaV · perpendicular` and the deflector cone is replaced.
        `perpLength` is the host's length of `crossVectors(velocity, (0,1,0))`. */
    method Deflect(perpLength: real) returns (outcome: DeflectOutcome)
      requires Valid() && IsLength(Cross(meteorVelocity, Up), perpLength)
      modifies this`meteorVelocity, this`deflectorMesh, this`deflectorPos
      modifies this`scene, this`nextMeshId
      ensures Valid()
      ensures !old(meteorActive) ==> outcome == NoMeteor && unchanged(this)
      ensures old(meteorActive) && TooClose(old(meteorPos), old(targetPos)) ==>
        outcome == TooLate && unchanged(this)
      ensures old(meteorActive) && !TooClose(old(meteorPos), old(targetPos)) ==>
        outcome == Impulse(DeltaV(velocity, mass)) &&
        meteorVelocity == Deflected(old(meteorVelocity), perpLength, DeltaV(velocity, mass)) &&
        deflectorMesh.Some? && deflectorMesh.value !in old(scene) &&
        scene == old(scene) - old(deflectorMesh).Elems() + {deflectorMesh.value} &&
        deflectorPos == Add(meteorPos, DeflectorOffset)
    {
      if meteorActive && meteorMesh.Some? {
        if TooClose(meteorPos, targetPos) {
          return TooLate;
        }
        var deltaV := DeltaV(velocity, mass);
        meteorVelocity := Deflected(meteorVelocity, perpLength, deltaV);
        if deflectorMesh.Some? {
          scene := scene - {deflectorMesh.value};
        }
        var cone := DeflectorMesh(nextMeshId);
        nextMeshId := nextMeshId + 1;
        deflectorMesh := Some(cone);
        deflectorPos := Add(meteorPos, DeflectorOffset);
        scene := scene + {cone};
        return Impulse(deltaV);
      }
      return NoMeteor;
    }

    /** The window click: on a hit of the globe the target moves to the hit point and the
        green marker is replaced; on a miss nothing changes. */
    method Pick(hit: Option<Vec3>)
      requires Valid()
      modifies this`targetPos, this`markerMesh, this`markerPos, this`scene, this`nextMeshId
      ensures Valid()
      ensures hit.None? ==> unchanged(this)
      ensures hit.Some? ==>
        targetPos == hit.value && markerPos == hit.value &&
        markerMesh.Some? && markerMesh.value !in old(scene) &&
        scene == old(scene) - old(markerMesh).Elems() + {markerMesh.value}
    {
      if hit.Some? {
        targetPos := hit.value;
        if markerMesh.Some? {
          scene := scene - {markerMesh.value};
        }
        var marker := MarkerMesh(nextMeshId);
        nextMeshId := nextMeshId + 1;
        markerMesh := Some(marker);
        markerPos := targetPos;
        scene := scene + {marker};
      }
    }

    /** The meteor and explosion part of one `animate` frame. An active meteor moves by
        its velocity; if it is then within 0.05 of the target, one explosion is created at
        the target, the meteor leaves the scene and stops being active, so no later frame
        of this flight can explode again. Then every explosion, the new one included, is
        updated once and the pool keeps exactly the live ones, in order. */
    method Tick()
      requires Valid()
      modifies this`meteorPos, this`meteorActive, this`scene, this`explosions
      modifies this`created, this`released
      ensures Valid()
      ensures var hit := old(meteorActive) && Hits(Add(old(meteorPos), meteorVelocity), targetPos);
        meteorPos == (if old(meteorActive) then Add(old(meteorPos), meteorVelocity) else old(meteorPos)) &&
        meteorActive == (old(meteorActive) && !hit) &&
        scene == (if hit then old(scene) - {meteorMesh.value} else old(scene)) &&
        explosions == Decay(old(explosions) + (if hit then [Spawned(targetPos)] else [])) &&
        created == old(created) + (if hit then 1 else 0)
    {
      ghost var hit := meteorActive && Hits(Add(meteorPos, meteorVelocity), targetPos);
      ghost var grown := explosions + (if hit then [Spawned(targetPos)] else []);
      Advance();
      assert explosions == grown;
      UpdateAndPrune();
    }

    /** The meteor step of a frame: move, and on a hit create the explosion at the target,
        take the meteor out of the scene and mark it inactive. */
    method Advance()
      requires Valid()
      modifies this`meteorPos, this`meteorActive, this`scene, this`explosions, this`created
      ensures Valid()
      ensures var hit := old(meteorActive) && Hits(Add(old(meteorPos), meteorVelocity), targetPos);
        meteorPos == (if old(meteorActive) then Add(old(meteorPos), meteorVelocity) else old(meteorPos)) &&
        meteorActive == (old(meteorActive) && !hit) &&
        scene == (if hit then old(scene) - {meteorMesh.value} else old(scene)) &&
        explosions == old(explosions) + (if hit then [Spawned(targetPos)] else []) &&
        created == old(created) + (if hit then 1 else 0)
    {
      if meteorActive && meteorMesh.Some? {
        meteorPos := Add(meteorPos, meteorVelocity);
        if Hits(meteorPos, targetPos) {
          explosions := explosions + [Spawned(targetPos)];
          created := created + 1;
          scene := scene - {meteorMesh.value};
          meteorActive := false;
        }
      }
    }

    /** `explosions.forEach(e => e.update())` followed by
        `explosions = explosions.filter(e => e.isAlive())`. */
    method UpdateAndPrune()
      requires PoolValid()
      modifies this`explosions, this`released
      ensures PoolValid()
      ensures explosions == Decay(old(explosions))
      ensures forall e | e in UpdateAll(old(explosions)) && !e.alive :: e.removed == 1
      ensures released == old(released) + (|old(explosions)| - |explosions|)
    {
      ghost var pool := explosions;
      var i := 0;
      while i < |explosions|
        invariant 0 <= i <= |explosions| == |pool|
        invariant forall k | 0 <= k < i :: explosions[k] == Update(pool[k])
        invariant forall k | i <= k < |pool| :: explosions[k] == pool[k]
        invariant released == old(released)
      {
        explosions := explosions[i := Update(explosions[i])];
        i := i + 1;
      }
      var updated := explosions;
      assert updated == UpdateAll(pool);
      var kept := KeepAlive(updated);
      released := released + (|updated| - |kept|);
      explosions := kept;
      DecayWf(pool);
      forall e | e in updated && !e.alive ensures e.removed == 1 {
        var k :| 0 <= k < |updated| && updated[k] == e;
        assert pool[k] in pool;
        UpdateWf(pool[k]);
      }
    }

    /** Frames without user input, from an active meteor whose drift first comes within
        the impact radius at frame `n >= 1`: exactly `n` frames pass, the last one
        registers the impact, and exactly one explosion, at the target, joins the pool.
        `StraightFlightImpact` supplies `n` for a meteor on course. */
    method RunUntilImpact(ghost n: nat) returns (ticks: nat)
      requires Valid() && meteorActive && n >= 1
      requires FirstImpactAt(meteorPos, meteorVelocity, targetPos, n)
      modifies this`meteorPos, this`meteorActive, this`scene, this`explosions
      modifies this`created, this`released
      ensures Valid() && !meteorActive
      ensures ticks == n
      ensures meteorPos == Drift(old(meteorPos), old(meteorVelocity), ticks)
      ensures Hits(meteorPos, targetPos)
      ensures explosions == DecayN(old(explosions), ticks) + [Update(Spawned(targetPos))]
      ensures created == old(created) + 1
    {
      ghost var p0, pool0, c0 := meteorPos, explosions, created;
      ticks := 0;
      while meteorActive
        invariant Valid()
        invariant ticks <= n
        invariant meteorPos == Drift(p0, meteorVelocity, ticks)
        invariant meteorActive ==> ticks < n && explosions == DecayN(pool0, ticks) && created == c0
        invariant !meteorActive ==>
          ticks == n && explosions == DecayN(pool0, n) + [Update(Spawned(targetPos))] && created == c0 + 1
        decreases n - ticks
      {
        FlightFrame(p0, pool0, n, ticks);
        ticks := ticks + 1;
      }
    }

    /** Frame `k + 1` of a flight whose first impact comes at frame `n`: before frame `n`
        the meteor only moves and the pool decays; frame `n` adds the one explosion. */
    method FlightFrame(ghost p0: Vec3, ghost pool0: seq<Explosion>, ghost n: nat, ghost k: nat)
      requires Valid() && meteorActive && k < n
      requires FirstImpactAt(p0, meteorVelocity, targetPos, n)
      requires meteorPos == Drift(p0, meteorVelocity, k) && explosions == DecayN(pool0, k)
      modifies this`meteorPos, this`meteorActive, this`scene, this`explosions
      modifies this`created, this`released
      ensures Valid() && meteorPos == Drift(p0, meteorVelocity, k + 1)
      ensures meteorActive ==> k + 1 < n && explosions == DecayN(pool0, k + 1) && created == old(created)
      ensures !meteorActive ==>
        k + 1 == n && explosions == DecayN(pool0, n) + [Update(Spawned(targetPos))] &&
        created == old(created) + 1
    {
      assert Drift(p0, meteorVelocity, k + 1) == Add(Drift(p0, meteorVelocity, k), meteorVelocity);
      ghost var hit := Hits(Drift(p0, meteorVelocity, k + 1), targetPos);
      ghost var before := explosions;
      Tick();
      if hit {
        assert explosions == Decay(before + [Spawned(targetPos)]);
        DecayAppend(before, Spawned(targetPos));
      } else {
        assert before + [] == before;
        assert explosions == Decay(before);
      }
    }
  }

  /** A whole flight on a fresh page: the simulate button, then frames until the impact.
      The meteor strikes after `ImpactTicks` of the spawn distance, and the flight leaves
      exactly one explosion, at the target, updated once by the frame that created it. */
  method SimulateUntilImpact(target: Vec3, massInput: real, velocityInput: real,
                             strengthInput: real, offsetLength: real)
    returns (sim: SimState, ticks: nat)
    requires IsLength(SpawnOffset, offsetLength)
    ensures sim.Valid() && !sim.meteorActive && sim.targetPos == target
    ensures offsetLength >= ImpactRadius && ticks == ImpactTicks(offsetLength)
    ensures Hits(sim.meteorPos, target)
    ensures sim.explosions == [Update(Spawned(target))]
    ensures sim.created == 1 && sim.released == 0
  {
    sim := new SimState(target);
    sim.Simulate(massInput, velocityInput, strengthInput, offsetLength);
    SpawnDistance(offsetLength);
    ghost var n := ImpactTicks(offsetLength);
    OnCourseFirstImpact(sim.meteorPos, sim.meteorVelocity, target, offsetLength);
    ticks := sim.RunUntilImpact(n);
    DecayNEmpty(ticks);
  }

  /** `filter(e => e.isAlive())` as a loop: the live entries, in their order. */
  method KeepAlive(pool: seq<Explosion>) returns (kept: seq<Explosion>)
    ensures kept == Survivors(pool)
  {
    kept := [];
    var j := 0;
    while j < |pool|
      invariant 0 <= j <= |pool|
      invariant kept == Survivors(pool[..j])
    {
      assert pool[..j + 1] == pool[..j] + [pool[j]];
      SurvivorsAppend(pool[..j], [pool[j]]);
      assert Survivors([pool[j]]) == if pool[j].alive then [pool[j]] else [] by {
        assert [pool[j]][1..] == [];
      }
      if pool[j].alive {
        kept := kept + [pool[j]];
      }
      j := j + 1;
    }
    assert pool[..j] == pool;
  }

  /** The spawn velocity `normalize(d)·0.02` is `d` scaled by `0.02 / |d|`. */
  lemma SpawnVelocity(d: Vec3, len: real)
    requires IsLength(d, len) && len > 0.0
    ensures Scale(Normalize(d, len), Step) == Scale(d, Step / len)
  {
    assert Normalize(d, len) == Scale(d, 1.0 / len);
    assert Step * ((1.0 / len) * d.x) == (Step / len) * d.x;
    assert Step * ((1.0 / len) * d.y) == (Step / len) * d.y;
    assert Step * ((1.0 / len) * d.z) == (Step / len) * d.z;
  }
}
