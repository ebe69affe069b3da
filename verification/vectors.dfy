/**
  Points, vectors and normals in three dimensions (nori's `Point3f`,
  `Vector3f`, `Normal3f`), over ideal real arithmetic.
 */
module Vectors {

  datatype Vec3 = Vec3(x: real, y: real, z: real)

  datatype Point2 = Point2(x: real, y: real)

  /** `a + b`: point (or vector) `a` moved by vector `b` */
  function Translate(a: Vec3, b: Vec3): Vec3 {
    Vec3(a.x + b.x, a.y + b.y, a.z + b.z)
  }

  function Sub(a: Vec3, b: Vec3): Vec3 {
    Vec3(a.x - b.x, a.y - b.y, a.z - b.z)
  }

  /** `v * s`: vector `v` scaled by `s` */
  function Stretch(v: Vec3, s: real): Vec3 {
    Vec3(v.x * s, v.y * s, v.z * s)
  }

  function Dot(a: Vec3, b: Vec3): real {
    a.x * b.x + a.y * b.y + a.z * b.z
  }

  function Abs(t: real): (r: real)
    ensures r >= 0.0
    ensures r == t || r == -t
  {
    if t < 0.0 then -t else t
  }

  /**
    `sqrt` is an exact square root on the non-negative reals. The model
    receives `std::sqrt` as such a function, since Dafny's reals have no
    built-in root.
   */
  ghost predicate IsSqrt(sqrt: real -> real) {
    forall t :: 0.0 <= t ==> 0.0 <= sqrt(t) && sqrt(t) * sqrt(t) == t
  }

  lemma DotSelfNonNegative(v: Vec3)
    ensures Dot(v, v) >= 0.0
  {
    assert v.x * v.x >= 0.0 && v.y * v.y >= 0.0 && v.z * v.z >= 0.0;
  }

  /**
    Dividing a vector by its length gives a unit vector, and stretching
    that unit vector by the length gives the vector back.
   */
  lemma NormalizeRoundTrip(v: Vec3, len: real)
    requires 0.0 < len && len * len == Dot(v, v)
    ensures Dot(Stretch(v, 1.0 / len), Stretch(v, 1.0 / len)) == 1.0
    ensures Stretch(Stretch(v, 1.0 / len), len) == v
  {
    var k := 1.0 / len;
    assert k * len == 1.0;
    var u := Stretch(v, k);
    calc {
      Dot(u, u);
      == (v.x * k) * (v.x * k) + (v.y * k) * (v.y * k) + (v.z * k) * (v.z * k);
      == (k * k) * Dot(v, v);
      == (k * k) * (len * len);
      == (k * len) * (k * len);
      == 1.0;
    }
    assert (v.x * k) * len == v.x * (k * len);
    assert (v.y * k) * len == v.y * (k * len);
    assert (v.z * k) * len == v.z * (k * len);
  }
}
