/** The meteor's motion in main.js: a straight flight at a constant velocity toward
    `targetPos`, an impact test against a proximity threshold, and the one-shot
    sideways impulse of the deflect button. Distances are compared by their squares. */
module Flight {
  import opened Geometry

  /** Scene units covered per frame: `dir.multiplyScalar(0.02)` in `spawnMeteor`. */
  const Step: real := 0.02

  /** The impact test `distanceTo(targetPos) < 0.05` of `animate`. */
  const ImpactRadius: real := 0.05

  /** `minDistance` of the deflect handler. */
  const SafeDistance: real := 0.5

  /** A meteor appears at `targetPos + (2, 2, 2)`. */
  const SpawnOffset: Vec3 := Vec3(2.0, 2.0, 2.0)

  /** The terms of `deltaV = 0.01 * (params.velocity/20000) * (1e8/params.mass)`. */
  const DeflectBase: real := 0.01
  const ReferenceVelocity: real := 20000.0
  const ReferenceMass: real := 100000000.0

  /** The bounds the simulate button clamps the three parameters into. */
  const MinMass: real := 1000000.0
  const MaxMass: real := 1000000000000.0
  const MinVelocity: real := 11000.0
  const MaxVelocity: real := 72000.0
  const MinStrength: real := 1000000.0
  const MaxStrength: real := 1000000000.0

  predicate ParamsInRange(mass: real, velocity: real, strength: real) {
    MinMass <= mass <= MaxMass && MinVelocity <= velocity <= MaxVelocity &&
    MinStrength <= strength <= MaxStrength
  }

  /** `distanceTo(targetPos) < 0.05`; a meteor at the target itself registers. */
  predicate Hits(pos: Vec3, target: Vec3)
    ensures pos == target ==> Hits(pos, target)
  {
    DistSq(pos, target) < ImpactRadius * ImpactRadius
  }

  /** `distanceToEarth < minDistance`; every position that registers an impact is too
      close to deflect. */
  predicate TooClose(pos: Vec3, target: Vec3)
    ensures Hits(pos, target) ==> TooClose(pos, target)
  {
    DistSq(pos, target) < SafeDistance * SafeDistance
  }

  /** The position after `n` frames of `position.add(velocity)`. */
  function Drift(pos: Vec3, vel: Vec3, n: nat): Vec3 {
    if n == 0 then pos else Add(Drift(pos, vel, n - 1), vel)
  }

  /** Frame by frame addition of the velocity lands where one jump of `n·vel` would. */
  lemma {:induction false} DriftClosedForm(pos: Vec3, vel: Vec3, n: nat)
    ensures Drift(pos, vel, n) == Add(pos, Scale(vel, n as real))
  {
    if n == 0 {
      assert Scale(vel, 0.0) == Zero;
    } else {
      DriftClosedForm(pos, vel, n - 1);
      assert (n - 1) as real * vel.x + vel.x == n as real * vel.x;
      assert (n - 1) as real * vel.y + vel.y == n as real * vel.y;
      assert (n - 1) as real * vel.z + vel.z == n as real * vel.z;
    }
  }

  /** The meteor heads straight for `target` at full speed and is `s` scene units away:
      it sits `s / Step` frames' worth of velocity behind the target. */
  ghost predicate OnCourse(pos: Vec3, vel: Vec3, target: Vec3, s: real) {
    0.0 < s && NormSq(vel) == Step * Step && pos == Add(target, Scale(vel, -s / Step))
  }

  /** On course, the remaining distance is `s`. */
  lemma CourseDistance(pos: Vec3, vel: Vec3, target: Vec3, s: real)
    requires OnCourse(pos, vel, target, s)
    ensures DistSq(pos, target) == s * s
  {
    DistSqOffset(target, vel, -s / Step);
    calc {
      DistSq(pos, target);
    ==
      (-s / Step) * (-s / Step) * NormSq(vel);
    ==
      (-s / Step) * (-s / Step) * (Step * Step);
    ==
      s * s;
    }
  }

  /** A frame on course brings the meteor exactly `Step` closer. */
  lemma CourseStep(pos: Vec3, vel: Vec3, target: Vec3, s: real)
    requires OnCourse(pos, vel, target, s) && s > Step
    ensures OnCourse(Add(pos, vel), vel, target, s - Step)
  {
    assert -(s - Step) / Step == -s / Step + 1.0;
  }

  /** After `n` frames on course the meteor is `s - n·Step` away, as long as that is positive. */
  lemma {:induction false} DriftOnCourse(pos: Vec3, vel: Vec3, target: Vec3, s: real, n: nat)
    requires OnCourse(pos, vel, target, s) && s - n as real * Step > 0.0
    ensures OnCourse(Drift(pos, vel, n), vel, target, s - n as real * Step)
  {
    if n > 0 {
      DriftOnCourse(pos, vel, target, s, n - 1);
      CourseStep(Drift(pos, vel, n - 1), vel, target, s - (n - 1) as real * Step);
    }
  }

  /** The number of frames a meteor on course at distance `s` takes to impact. */
  function ImpactTicks(s: real): (n: nat)
    requires s >= ImpactRadius
    ensures n >= 1
    ensures s - n as real * Step < ImpactRadius <= s - (n - 1) as real * Step
  {
    var x := (s - ImpactRadius) / Step;
    assert 0.0 <= x;
    x.Floor + 1
  }

  /** Drifting from `pos` at `vel`, the first frame whose position registers an impact
      on `target` is frame `n`. */
  ghost predicate FirstImpactAt(pos: Vec3, vel: Vec3, target: Vec3, n: nat) {
    (forall k: nat | k < n :: !Hits(Drift(pos, vel, k), target)) && Hits(Drift(pos, vel, n), target)
  }

  /** Because a frame's step (0.02) is shorter than the impact radius (0.05), a meteor on
      course cannot jump past the target: every frame brings it exactly `Step` closer,
      no frame before frame `ImpactTicks(s)` registers an impact, and that frame does. */
  lemma StraightFlightImpact(pos: Vec3, vel: Vec3, target: Vec3, s: real)
    requires OnCourse(pos, vel, target, s) && s >= ImpactRadius
    ensures forall k: nat | k <= ImpactTicks(s) ::
      DistSq(Drift(pos, vel, k), target) == (s - k as real * Step) * (s - k as real * Step)
    ensures forall k: nat | k < ImpactTicks(s) :: !Hits(Drift(pos, vel, k), target)
    ensures Hits(Drift(pos, vel, ImpactTicks(s)), target)
    ensures FirstImpactAt(pos, vel, target, ImpactTicks(s))
  {
    var n := ImpactTicks(s);
    forall k: nat | k <= n
      ensures DistSq(Drift(pos, vel, k), target) == (s - k as real * Step) * (s - k as real * Step)
      ensures k < n ==> !Hits(Drift(pos, vel, k), target)
      ensures k == n ==> Hits(Drift(pos, vel, k), target)
    {
      var d := s - k as real * Step;
      assert d >= s - n as real * Step > 0.0;
      DriftOnCourse(pos, vel, target, s, k);
      CourseDistance(Drift(pos, vel, k), vel, target, d);
      if k < n {
        assert ImpactRadius <= d;
        SquareMonotonic(ImpactRadius, d);
      } else {
        SquareStrictlyMonotonic(d, ImpactRadius);
      }
    }
  }

  /** `spawnMeteor` puts the meteor on course: velocity `0.02 ×` the unit vector toward the
      target from `targetPos + (2, 2, 2)`, a distance of `len`, the length of the offset,
      which is well beyond the impact radius. */
  lemma SpawnOnCourse(target: Vec3, len: real)
    requires IsLength(SpawnOffset, len)
    ensures var pos := Add(target, SpawnOffset);
      IsLength(Sub(target, pos), len) &&
      OnCourse(pos, Scale(Normalize(Sub(target, pos), len), Step), target, len)
    ensures len >= ImpactRadius
  {
    var pos := Add(target, SpawnOffset);
    var d := Sub(target, pos);
    assert d == Vec3(-2.0, -2.0, -2.0);
    if len < ImpactRadius {
      SquareStrictlyMonotonic(len, ImpactRadius);
      assert false;
    }
    var u := Normalize(d, len);
    var vel := Scale(u, Step);
    NormSqScale(u, Step);
    assert Scale(vel, -len / Step) == Scale(u, -len) by {
      assert (-len / Step) * (Step * u.x) == -len * u.x;
      assert (-len / Step) * (Step * u.y) == -len * u.y;
      assert (-len / Step) * (Step * u.z) == -len * u.z;
    }
    assert Scale(u, len) == d;
  }

  /** The spawn distance `√12` lies beyond the impact radius. */
  lemma SpawnDistance(len: real)
    requires IsLength(SpawnOffset, len)
    ensures len >= ImpactRadius
  {
    SpawnOnCourse(Zero, len);
  }

  /** A meteor on course from beyond the impact radius first hits on frame `ImpactTicks(s)`. */
  lemma OnCourseFirstImpact(pos: Vec3, vel: Vec3, target: Vec3, s: real)
    requires OnCourse(pos, vel, target, s) && s >= ImpactRadius
    ensures FirstImpactAt(pos, vel, target, ImpactTicks(s))
  {
    StraightFlightImpact(pos, vel, target, s);
  }

  /** `0.01 * (velocity/20000) * (1e8/mass)`. */
  function DeltaV(velocity: real, mass: real): (dv: real)
    requires mass != 0.0
    ensures velocity > 0.0 && mass > 0.0 ==> dv > 0.0
  {
    DeflectBase * (velocity / ReferenceVelocity) * (ReferenceMass / mass)
  }

  /** With clamped parameters the impulse lies between 5.5e-7 (11 km/s, 1e12 kg) and
      3.6 (72 km/s, 1e6 kg). */
  lemma DeltaVBounds(mass: real, velocity: real)
    requires MinMass <= mass <= MaxMass && MinVelocity <= velocity <= MaxVelocity
    ensures 0.00000055 <= DeltaV(velocity, mass) <= 3.6
  {
    var a := velocity / ReferenceVelocity;
    var b := ReferenceMass / mass;
    assert 0.55 <= a <= 3.6;
    QuotientBounds(ReferenceMass, mass, MinMass, MaxMass);
    assert 0.0001 <= b <= 100.0;
    ProductBounds(a, b, 0.55, 0.0001, 3.6, 100.0);
  }

  /** A faster meteor gets a larger impulse, a heavier one a smaller impulse. */
  lemma DeltaVMonotonic(v1: real, v2: real, m1: real, m2: real)
    requires 0.0 <= v1 <= v2 && 0.0 < m1 <= m2
    ensures DeltaV(v1, m2) <= DeltaV(v2, m2)
    ensures DeltaV(v1, m2) <= DeltaV(v1, m1)
  {
    var b1 := ReferenceMass / m1;
    var b2 := ReferenceMass / m2;
    QuotientBounds(ReferenceMass, m2, m1, m2);
    assert 0.0 < b2 <= b1;
    ProductBounds(v1 / ReferenceVelocity, b2, 0.0, 0.0, v2 / ReferenceVelocity, b2);
    ProductBounds(v1 / ReferenceVelocity, b2, 0.0, 0.0, v1 / ReferenceVelocity, b1);
  }

  /** Strictly so: a faster meteor gets a larger impulse, a heavier one a smaller one. */
  lemma DeltaVStrictlyMonotonic(v1: real, v2: real, m1: real, m2: real)
    requires 0.0 < v1 < v2 && 0.0 < m1 < m2
    ensures DeltaV(v1, m2) < DeltaV(v2, m2)
    ensures DeltaV(v1, m2) < DeltaV(v1, m1)
  {
    var b1 := ReferenceMass / m1;
    var b2 := ReferenceMass / m2;
    StrictQuotient(ReferenceMass, m1, m2);
    assert 0.0 < b2 < b1;
    var a1 := v1 / ReferenceVelocity;
    var a2 := v2 / ReferenceVelocity;
    assert 0.0 < a1 < a2;
    StrictProduct(a1, a2, b2);
    StrictProduct(b2, b1, a1);
    assert DeltaV(v1, m2) == DeflectBase * (a1 * b2);
    assert DeltaV(v2, m2) == DeflectBase * (a2 * b2);
    assert DeltaV(v1, m1) == DeflectBase * (b1 * a1);
  }

  lemma StrictProduct(a1: real, a2: real, b: real)
    requires a1 < a2 && 0.0 < b
    ensures a1 * b < a2 * b
  {
    PositiveProduct(a2 - a1, b);
  }

  /** `n / d` falls strictly as a positive `d` grows. */
  lemma StrictQuotient(n: real, d1: real, d2: real)
    requires 0.0 < n && 0.0 < d1 < d2
    ensures n / d2 < n / d1
  {
    assert (n / d1) * d1 == n;
    assert (n / d2) * d2 == n;
    if n / d2 >= n / d1 {
      calc {
        n;
      ==
        (n / d2) * d2;
      >  { StrictProduct(d1, d2, n / d2); }
        (n / d2) * d1;
      >=
        (n / d1) * d1;
      ==
        n;
      }
    }
  }

  /** `n / d` for `d` in `[lo, hi]` lies between `n / hi` and `n / lo`. */
  lemma QuotientBounds(n: real, d: real, lo: real, hi: real)
    requires 0.0 < n && 0.0 < lo <= d <= hi
    ensures n / hi <= n / d <= n / lo
  {
    assert (n / d) * d == n;
    if n / d > n / lo {
      calc {
        n;
      ==
        (n / d) * d;
      >=
        (n / d) * lo;
      >
        (n / lo) * lo;
      ==
        n;
      }
    }
    if n / d < n / hi {
      calc {
        n;
      ==
        (n / d) * d;
      <=
        (n / d) * hi;
      <
        (n / hi) * hi;
      ==
        n;
      }
    }
  }

  lemma ProductBounds(a: real, b: real, aLo: real, bLo: real, aHi: real, bHi: real)
    requires 0.0 <= aLo <= a <= aHi && 0.0 <= bLo <= b <= bHi
    ensures aLo * bLo <= a * b <= aHi * bHi
  {
    calc {
      aLo * bLo;
    <=
      a * bLo;
    <=
      a * b;
    <=
      aHi * b;
    <=
      aHi * bHi;
    }
  }

  /** `meteorVelocity.add(perpendicular.multiplyScalar(deltaV))` with
      `perpendicular = crossVectors(velocity, (0,1,0)).normalize()`; `perpLen` is the
      length of the cross product. */
  function Deflected(vel: Vec3, perpLen: real, dv: real): (w: Vec3)
    requires IsLength(Cross(vel, Up), perpLen)
    ensures w.y == vel.y
  {
    CrossUpIsLevel(vel);
    var u := Normalize(Cross(vel, Up), perpLen);
    assert u.y == 0.0;
    Add(vel, Scale(u, dv))
  }

  /** The impulse is horizontal and at right angles to the velocity: the vertical
      component is kept, the squared speed grows by exactly `dv²`, and the impulse has
      no effect exactly when the velocity is vertical (the cross product is zero). */
  lemma DeflectionSideways(vel: Vec3, perpLen: real, dv: real)
    requires IsLength(Cross(vel, Up), perpLen)
    ensures Deflected(vel, perpLen, dv).y == vel.y
    ensures Dot(Sub(Deflected(vel, perpLen, dv), vel), vel) == 0.0
    ensures perpLen > 0.0 ==> NormSq(Deflected(vel, perpLen, dv)) == NormSq(vel) + dv * dv
    ensures perpLen == 0.0 <==> vel.x == 0.0 && vel.z == 0.0
    ensures perpLen == 0.0 ==> Deflected(vel, perpLen, dv) == vel
  {
    CrossUpIsLevel(vel);
    ZeroLength(Cross(vel, Up), perpLen);
    if perpLen > 0.0 {
      KickAtRightAngles(vel, perpLen, dv);
    } else {
      NoKick(vel, dv);
    }
  }

  lemma KickAtRightAngles(vel: Vec3, perpLen: real, dv: real)
    requires IsLength(Cross(vel, Up), perpLen) && perpLen > 0.0
    ensures var w := Deflected(vel, perpLen, dv);
      w.y == vel.y && Dot(Sub(w, vel), vel) == 0.0 && NormSq(w) == NormSq(vel) + dv * dv
  {
    var c := Cross(vel, Up);
    var p := Normalize(c, perpLen);
    assert p == Scale(c, 1.0 / perpLen);
    assert c.y == 0.0;
    CrossPerpendicular(vel, Up);
    assert Dot(c, vel) == 0.0;
    ScaledPerpendicular(c, vel, 1.0 / perpLen);
    ScaledPerpendicular(p, vel, dv);
    var kick := Scale(p, dv);
    assert Dot(vel, kick) == 0.0;
    NormSqAddPerpendicular(vel, kick);
    NormSqScale(p, dv);
    assert NormSq(p) == 1.0;
    assert Deflected(vel, perpLen, dv) == Add(vel, kick);
    assert Sub(Add(vel, kick), vel) == kick;
  }

  lemma NoKick(vel: Vec3, dv: real)
    requires IsLength(Cross(vel, Up), 0.0)
    ensures Deflected(vel, 0.0, dv) == vel
    ensures Dot(Sub(Deflected(vel, 0.0, dv), vel), vel) == 0.0
  {
    assert Normalize(Cross(vel, Up), 0.0) == Zero;
    ScaleZero(dv);
    AddZero(vel);
    assert Sub(vel, vel) == Zero;
    DotZero(vel);
  }

  /** `crossVectors(v, (0,1,0))` is `(-v.z, 0, v.x)`: level, and zero only for a vertical `v`. */
  lemma CrossUpIsLevel(v: Vec3)
    ensures Cross(v, Up) == Vec3(-v.z, 0.0, v.x)
    ensures Cross(v, Up) == Zero <==> v.x == 0.0 && v.z == 0.0
  {
  }

  /** Only the zero vector has length 0. */
  lemma ZeroLength(v: Vec3, len: real)
    requires IsLength(v, len)
    ensures len == 0.0 <==> v == Zero
  {
    NormSqNonNegative(v);
    if len != 0.0 {
      SquarePositive(len);
      calc {
        NormSq(v);
      ==
        len * len;
      >
        0.0;
      }
    }
  }

  lemma ScaledPerpendicular(a: Vec3, b: Vec3, k: real)
    requires Dot(a, b) == 0.0
    ensures Dot(Scale(a, k), b) == 0.0
  {
    calc {
      Dot(Scale(a, k), b);
    ==
      k * Dot(a, b);
    ==
      0.0;
    }
  }
}
