/** Vectors in scene units and the two scalar helpers of main.js: `clamp` and
    three.js's `Vector3.normalize`. Coordinates are exact reals; square roots
    are never taken: a length enters as a value `len` together with the fact
    `IsLength(v, len)` that it squares to the squared norm of `v`. */
module Geometry {

  datatype Vec3 = Vec3(x: real, y: real, z: real)

  const Zero: Vec3 := Vec3(0.0, 0.0, 0.0)

  /** The up axis `new THREE.Vector3(0,1,0)` used by the deflect handler. */
  const Up: Vec3 := Vec3(0.0, 1.0, 0.0)

  function Add(a: Vec3, b: Vec3): Vec3 {
    Vec3(a.x + b.x, a.y + b.y, a.z + b.z)
  }

  function Sub(a: Vec3, b: Vec3): Vec3 {
    Vec3(a.x - b.x, a.y - b.y, a.z - b.z)
  }

  function Scale(a: Vec3, k: real): Vec3 {
    Vec3(k * a.x, k * a.y, k * a.z)
  }

  function Dot(a: Vec3, b: Vec3): real {
    a.x * b.x + a.y * b.y + a.z * b.z
  }

  /** `crossVectors(a, b)` of three.js. */
  function Cross(a: Vec3, b: Vec3): Vec3 {
    Vec3(a.y * b.z - a.z * b.y, a.z * b.x - a.x * b.z, a.x * b.y - a.y * b.x)
  }

  function NormSq(a: Vec3): real {
    Dot(a, a)
  }

  /** The square of `distanceTo`. */
  function DistSq(a: Vec3, b: Vec3): real {
    NormSq(Sub(a, b))
  }

  /** `len` is the Euclidean length of `v`, the value `Math.sqrt` yields in `Vector3.length()`. */
  predicate IsLength(v: Vec3, len: real) {
    0.0 <= len && len * len == NormSq(v)
  }

  function Min(a: real, b: real): real {
    if a <= b then a else b
  }

  function Max(a: real, b: real): real {
    if a >= b then a else b
  }

  /** `Math.min(Math.max(val, min), max)`: with a proper range the result lies in it and an
      in-range value passes unchanged; with an inverted range the upper bound wins. */
  function Clamp(v: real, lo: real, hi: real): (r: real)
    ensures lo <= hi ==> lo <= r <= hi
    ensures lo <= v <= hi ==> r == v
    ensures v < lo <= hi ==> r == lo
    ensures hi < v ==> r == hi
    ensures hi < lo ==> r == hi
  {
    Min(Max(v, lo), hi)
  }

  lemma ScaleZero(k: real)
    ensures Scale(Zero, k) == Zero
  {
  }

  lemma AddZero(v: Vec3)
    ensures Add(v, Zero) == v
  {
  }

  lemma DotZero(v: Vec3)
    ensures Dot(Zero, v) == 0.0
  {
  }

  lemma NormSqNonNegative(a: Vec3)
    ensures NormSq(a) >= 0.0
    ensures NormSq(a) == 0.0 ==> a == Zero
  {
    SquareNonNegative(a.x);
    SquareNonNegative(a.y);
    SquareNonNegative(a.z);
    if a != Zero {
      NormSqPositive(a);
    }
  }

  lemma NormSqPositive(a: Vec3)
    requires a != Zero
    ensures NormSq(a) > 0.0
  {
    SquareNonNegative(a.x);
    SquareNonNegative(a.y);
    SquareNonNegative(a.z);
    var m := if a.x != 0.0 then a.x else if a.y != 0.0 then a.y else a.z;
    calc {
      NormSq(a);
    ==
      a.x * a.x + a.y * a.y + a.z * a.z;
    >=
      m * m;
    >  { SquarePositive(m); }
      0.0;
    }
  }

  lemma SquareNonNegative(r: real)
    ensures r * r >= 0.0
  {
    if r != 0.0 {
      SquarePositive(r);
    }
  }

  lemma SquarePositive(r: real)
    requires r != 0.0
    ensures r * r > 0.0
  {
    if r < 0.0 {
      assert r * r == (-r) * (-r);
      PositiveProduct(-r, -r);
    } else {
      PositiveProduct(r, r);
    }
  }

  lemma PositiveProduct(a: real, b: real)
    requires a > 0.0 && b > 0.0
    ensures a * b > 0.0
  {
  }

  lemma NormSqScale(a: Vec3, k: real)
    ensures NormSq(Scale(a, k)) == k * k * NormSq(a)
  {
    assert (k * a.x) * (k * a.x) == k * k * (a.x * a.x);
    assert (k * a.y) * (k * a.y) == k * k * (a.y * a.y);
    assert (k * a.z) * (k * a.z) == k * k * (a.z * a.z);
  }

  /** `v.normalize()`: divides by the length, or by 1 when the length is 0
      (`divideScalar(this.length() || 1)`). A non-zero vector becomes a unit vector
      pointing the same way; the zero vector stays zero. */
  function Normalize(v: Vec3, len: real): (u: Vec3)
    requires IsLength(v, len)
    ensures len == 0.0 ==> u == v == Zero
    ensures len > 0.0 ==> NormSq(u) == 1.0 && Scale(u, len) == v
  {
    NormSqNonNegative(v);
    if len == 0.0 then v
    else
      var u := Scale(v, 1.0 / len);
      NormSqScale(v, 1.0 / len);
      assert (1.0 / len) * (1.0 / len) * (len * len) == 1.0;
      assert Scale(u, len) == v by {
        assert len * ((1.0 / len) * v.x) == v.x;
        assert len * ((1.0 / len) * v.y) == v.y;
        assert len * ((1.0 / len) * v.z) == v.z;
      }
      u
  }

  /** The cross product with any vector is perpendicular to both factors. */
  lemma CrossPerpendicular(a: Vec3, b: Vec3)
    ensures Dot(Cross(a, b), a) == 0.0 && Dot(Cross(a, b), b) == 0.0
  {
  }

  /** Pythagoras: adding a perpendicular vector adds the squares of the lengths. */
  lemma NormSqAddPerpendicular(a: Vec3, b: Vec3)
    requires Dot(a, b) == 0.0
    ensures NormSq(Add(a, b)) == NormSq(a) + NormSq(b)
  {
  }

  /** The squared distance from `c` to `c + k·d` is `k²·|d|²`. */
  lemma DistSqOffset(c: Vec3, d: Vec3, k: real)
    ensures DistSq(Add(c, Scale(d, k)), c) == k * k * NormSq(d)
  {
    assert Sub(Add(c, Scale(d, k)), c) == Scale(d, k);
    NormSqScale(d, k);
  }

  lemma SquareMonotonic(a: real, b: real)
    requires 0.0 <= a <= b
    ensures a * a <= b * b
  {
    calc {
      a * a;
    <=
      a * b;
    <=
      b * b;
    }
  }

  lemma SquareStrictlyMonotonic(a: real, b: real)
    requires 0.0 <= a < b
    ensures a * a < b * b
  {
    calc {
      a * a;
    <=
      a * b;
    <
      b * b;
    }
  }
}
