/** The explosion effect of main.js: `createExplosion` fills a point cloud and
    registers an `update` closure over a `life` countdown and an `alive` flag; the
    frame loop updates every registered explosion and keeps the ones still alive.
    Here the closure's captured state is the datatype `Explosion`, and `removed`
    counts the calls to `scene.remove(points)`. */
module Explosions {
  import opened Geometry

  /** The starting value of `life`, and the divisor of the opacity. */
  const Lifetime: int := 120

  /** `particleCount` of `createExplosion`. */
  const ParticleCount: nat := 3000

  /** Inner radius and thickness of the shell the particles are scattered over. */
  const ShellInner: real := 0.05
  const ShellThickness: real := 0.05

  /** The colour `new THREE.Color(1, 0.2, 0)` given to every particle. */
  const Ember: Vec3 := Vec3(1.0, 0.2, 0.0)

  datatype Explosion = Explosion(center: Vec3, life: int, alive: bool, opacity: real, removed: nat)

  /** The record `createExplosion(position)` registers: full life, alive, the material's
      initial opacity 1, its points still in the scene. */
  function Spawned(center: Vec3): (e: Explosion)
    ensures Wf(e) && e.alive && e.center == center
  {
    Explosion(center, Lifetime, true, 1.0, 0)
  }

  /** One call of the `update` closure: a dead explosion is left alone; a live one shows
      opacity `life/120`, then `life--<=0` compares the old value and decrements, and
      when the old value was not positive the explosion dies and its points are removed. */
  function Update(e: Explosion): (r: Explosion)
    ensures r.center == e.center
    ensures r.alive ==> e.alive
    ensures !e.alive ==> r == e
    ensures e.alive ==> r.life == e.life - 1 && (r.alive <==> e.life > 0)
  {
    if !e.alive then e
    else
      e.(opacity := e.life as real / Lifetime as real,
         life := e.life - 1,
         alive := !(e.life <= 0),
         removed := if e.life <= 0 then e.removed + 1 else e.removed)
  }

  /** `n` successive updates. */
  function UpdateN(e: Explosion, n: nat): Explosion {
    if n == 0 then e else Update(UpdateN(e, n - 1))
  }

  /** The opacity a live explosion with countdown `life` shows: 1 before its first
      update, and the value of the previous update, `(life + 1)/120`, afterwards. */
  function LiveOpacity(life: int): real {
    if life == Lifetime then 1.0 else (life + 1) as real / Lifetime as real
  }

  /** The states an explosion can reach from `Spawned`: alive with `0 <= life <= 120`
      and its points in the scene, or dead with its points removed exactly once. */
  ghost predicate Wf(e: Explosion) {
    if e.alive then 0 <= e.life <= Lifetime && e.removed == 0 && e.opacity == LiveOpacity(e.life)
    else e.life == -1 && e.removed == 1 && e.opacity == 0.0
  }

  /** An update keeps an explosion well formed, never raises its opacity, keeps the
      opacity in [0, 1], removes the points at most once, and a dead explosion never
      revives. */
  lemma UpdateWf(e: Explosion)
    requires Wf(e)
    ensures Wf(Update(e))
    ensures Update(e).center == e.center
    ensures 0.0 <= Update(e).opacity <= e.opacity <= 1.0
    ensures Update(e).alive ==> e.alive
    ensures !e.alive ==> Update(e) == e
    ensures Update(e).removed == if e.alive && !Update(e).alive then e.removed + 1 else e.removed
  {
  }

  /** The full lifecycle: after `n <= 120` updates the explosion is alive with `life ==
      120 - n`; the update that finds `life == 0` is the 121st, which shows opacity 0,
      marks it dead and removes its points; later updates change nothing. */
  lemma {:induction false} Lifecycle(c: Vec3, n: nat)
    ensures n <= 120 ==> UpdateN(Spawned(c), n) == Explosion(c, 120 - n, true, LiveOpacity(120 - n), 0)
    ensures n > 120 ==> UpdateN(Spawned(c), n) == Explosion(c, -1, false, 0.0, 1)
  {
    if n > 0 {
      Lifecycle(c, n - 1);
    }
  }

  /** The countdown starts at 120 but, being checked before it is decremented, the
      explosion is still alive after 120 updates and dies on the 121st. */
  lemma DiesOn121stUpdate(c: Vec3)
    ensures UpdateN(Spawned(c), 120).alive
    ensures !UpdateN(Spawned(c), 121).alive
    ensures UpdateN(Spawned(c), 121).removed == 1
  {
    Lifecycle(c, 120);
    Lifecycle(c, 121);
  }

  /** Every state along the lifecycle is well formed: in particular the points are
      removed from the scene at most once, however many updates follow. */
  lemma {:induction false} LifecycleWf(c: Vec3, n: nat)
    ensures Wf(UpdateN(Spawned(c), n))
    ensures UpdateN(Spawned(c), n).removed <= 1
  {
    if n == 0 {
    } else {
      LifecycleWf(c, n - 1);
      UpdateWf(UpdateN(Spawned(c), n - 1));
    }
  }

  /** `explosions.forEach(e => e.update())`. */
  function UpdateAll(pool: seq<Explosion>): (r: seq<Explosion>)
    ensures |r| == |pool|
    ensures forall i | 0 <= i < |pool| :: r[i].center == pool[i].center && (r[i].alive ==> pool[i].alive)
  {
    seq(|pool|, i requires 0 <= i < |pool| => Update(pool[i]))
  }

  /** `explosions.filter(e => e.isAlive())`: the live entries, in their order. */
  function Survivors(pool: seq<Explosion>): (r: seq<Explosion>)
    ensures |r| <= |pool|
    ensures forall e | e in r :: e.alive
  {
    if pool == [] then []
    else
      assert pool == [pool[0]] + pool[1..];
      if pool[0].alive then [pool[0]] + Survivors(pool[1..]) else Survivors(pool[1..])
  }

  /** The filter keeps every live entry as often as it occurs and drops every dead one. */
  lemma {:induction false} SurvivorsCount(pool: seq<Explosion>)
    ensures forall e :: multiset(Survivors(pool))[e] == if e.alive then multiset(pool)[e] else 0
  {
    if pool != [] {
      SurvivorsCount(pool[1..]);
      assert pool == [pool[0]] + pool[1..];
    }
  }

  /** Filtering works entry by entry, so it can be done left to right by a loop. */
  lemma {:induction false} SurvivorsAppend(a: seq<Explosion>, b: seq<Explosion>)
    ensures Survivors(a + b) == Survivors(a) + Survivors(b)
  {
    if a == [] {
      assert a + b == b;
    } else {
      assert (a + b)[1..] == a[1..] + b;
      SurvivorsAppend(a[1..], b);
    }
  }

  /** A pool of live entries passes the filter whole. */
  lemma {:induction false} SurvivorsOfLive(pool: seq<Explosion>)
    requires forall e | e in pool :: e.alive
    ensures Survivors(pool) == pool
  {
    if pool != [] {
      SurvivorsOfLive(pool[1..]);
    }
  }

  /** Filtering twice keeps what filtering once keeps. */
  lemma FilterIdempotent(pool: seq<Explosion>)
    ensures Survivors(Survivors(pool)) == Survivors(pool)
  {
    SurvivorsOfLive(Survivors(pool));
  }

  /** Pool maintenance of an empty pool leaves it empty, however many frames pass. */
  lemma {:induction false} DecayNEmpty(n: nat)
    ensures DecayN([], n) == []
  {
    if n > 0 {
      DecayNEmpty(n - 1);
    }
  }

  /** One frame of pool maintenance (main.js lines 187-188). */
  function Decay(pool: seq<Explosion>): (r: seq<Explosion>)
    ensures |r| <= |pool|
    ensures forall e | e in r :: e.alive
  {
    Survivors(UpdateAll(pool))
  }

  /** `n` frames of pool maintenance. */
  function DecayN(pool: seq<Explosion>, n: nat): seq<Explosion> {
    if n == 0 then pool else Decay(DecayN(pool, n - 1))
  }

  /** A frame keeps every entry well formed and drops exactly the entries whose
      update killed them; an explosion added at the end stays last while it lives. */
  lemma DecayAppend(pool: seq<Explosion>, e: Explosion)
    requires Update(e).alive
    ensures Decay(pool + [e]) == Decay(pool) + [Update(e)]
  {
    assert UpdateAll(pool + [e]) == UpdateAll(pool) + [Update(e)];
    SurvivorsAppend(UpdateAll(pool), [Update(e)]);
    assert Survivors([Update(e)]) == [Update(e)] by {
      assert [Update(e)][1..] == [];
    }
  }

  /** A frame keeps a pool of well-formed live entries well formed and live, and keeps
      every live entry's points in the scene. */
  lemma DecayWf(pool: seq<Explosion>)
    requires forall e | e in pool :: Wf(e)
    ensures forall e | e in Decay(pool) :: Wf(e) && e.alive && e.removed == 0
  {
    forall i | 0 <= i < |pool| ensures Wf(UpdateAll(pool)[i]) {
      UpdateWf(pool[i]);
    }
    SurvivorsCount(UpdateAll(pool));
    forall e | e in Decay(pool) ensures Wf(e) && e.alive && e.removed == 0 {
      assert multiset(Decay(pool))[e] > 0;
      assert e in multiset(UpdateAll(pool));
      var i :| 0 <= i < |UpdateAll(pool)| && UpdateAll(pool)[i] == e;
    }
  }

  /** The particle at index `i` of a flat `positions` buffer. */
  function ParticleAt(positions: array<real>, i: nat): Vec3
    requires 3 * i + 2 < positions.Length
    reads positions
  {
    Vec3(positions[3 * i], positions[3 * i + 1], positions[3 * i + 2])
  }

  /** The fill loop of `createExplosion`. The host's `Math.random` and trigonometry
      enter as data: `dirs[i]` is the unit vector `(sin φ cos θ, sin φ sin θ, cos φ)`
      and `spreads[i]` the draw in [0, 1) that sets the radius `0.05 + spreads[i]*0.05`.
      Every particle lands on the shell between radius 0.05 and 0.1 around `center`,
      and every particle gets the ember colour. */
  method ScatterParticles(center: Vec3, dirs: seq<Vec3>, spreads: seq<real>)
    returns (positions: array<real>, colors: array<real>)
    requires |dirs| == ParticleCount && |spreads| == ParticleCount
    requires forall i | 0 <= i < |dirs| :: NormSq(dirs[i]) == 1.0
    requires forall i | 0 <= i < |spreads| :: 0.0 <= spreads[i] < 1.0
    ensures positions.Length == 3 * ParticleCount && colors.Length == 3 * ParticleCount
    ensures forall i | 0 <= i < ParticleCount ::
      ParticleAt(positions, i) == Add(center, Scale(dirs[i], ShellInner + spreads[i] * ShellThickness))
    ensures forall i | 0 <= i < ParticleCount ::
      ShellInner * ShellInner <= DistSq(ParticleAt(positions, i), center)
                              < (ShellInner + ShellThickness) * (ShellInner + ShellThickness)
    ensures forall i | 0 <= i < ParticleCount :: ParticleAt(colors, i) == Ember
  {
    positions := new real[3 * ParticleCount];
    colors := new real[3 * ParticleCount];
    var i := 0;
    while i < ParticleCount
      invariant 0 <= i <= ParticleCount
      invariant positions != colors
      invariant forall k | 0 <= k < i ::
        ParticleAt(positions, k) == Add(center, Scale(dirs[k], ShellInner + spreads[k] * ShellThickness))
      invariant forall k | 0 <= k < i ::
        colors[3 * k] == Ember.x && colors[3 * k + 1] == Ember.y && colors[3 * k + 2] == Ember.z
    {
      var p := Add(center, Scale(dirs[i], ShellInner + spreads[i] * ShellThickness));
      positions[3 * i], positions[3 * i + 1], positions[3 * i + 2] := p.x, p.y, p.z;
      assert ParticleAt(positions, i) == p;
      colors[3 * i], colors[3 * i + 1], colors[3 * i + 2] := Ember.x, Ember.y, Ember.z;
      i := i + 1;
    }
    forall i | 0 <= i < ParticleCount
      ensures ShellInner * ShellInner <= DistSq(ParticleAt(positions, i), center)
                                      < (ShellInner + ShellThickness) * (ShellInner + ShellThickness)
    {
      ShellDistance(center, dirs[i], spreads[i]);
    }
    forall i | 0 <= i < ParticleCount ensures ParticleAt(colors, i) == Ember {
    }
  }

  /** A particle at radius `0.05 + u*0.05` along a unit direction lies in the shell. */
  lemma ShellDistance(center: Vec3, d: Vec3, u: real)
    requires NormSq(d) == 1.0 && 0.0 <= u < 1.0
    ensures var r := ShellInner + u * ShellThickness;
      ShellInner * ShellInner <= DistSq(Add(center, Scale(d, r)), center)
                              < (ShellInner + ShellThickness) * (ShellInner + ShellThickness)
  {
    var r := ShellInner + u * ShellThickness;
    DistSqOffset(center, d, r);
    assert ShellInner <= r < ShellInner + ShellThickness;
    calc {
      DistSq(Add(center, Scale(d, r)), center);
    ==
      r * r * NormSq(d);
    ==
      r * r;
    }
    SquareMonotonic(ShellInner, r);
    SquareStrictlyMonotonic(r, ShellInner + ShellThickness);
  }
}
