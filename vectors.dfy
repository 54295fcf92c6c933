/**
 * The small part of glm's vector algebra the physics step uses, over exact reals.
 * `length`, `normalize` and `intersectRayPlane` involve square roots and a
 * numeric ray cast; they are not defined here but passed around as function
 * values (a `Glm` record), so that nothing the model proves depends on them.
 */
module Vectors {

  datatype Vec3 = Vec3(x: real, y: real, z: real)

  function Zero(): Vec3 { Vec3(0.0, 0.0, 0.0) }

  function Add(a: Vec3, b: Vec3): Vec3 { Vec3(a.x + b.x, a.y + b.y, a.z + b.z) }

  function Sub(a: Vec3, b: Vec3): Vec3 { Vec3(a.x - b.x, a.y - b.y, a.z - b.z) }

  function Neg(a: Vec3): Vec3 { Vec3(-a.x, -a.y, -a.z) }

  /** Scalar times vector (`k * v` and `v * k` in glm). */
  function Scale(k: real, a: Vec3): Vec3 { Vec3(k * a.x, k * a.y, k * a.z) }

  /** Component-wise product (`v * w` for two vectors in glm). */
  function Mul(a: Vec3, b: Vec3): Vec3 { Vec3(a.x * b.x, a.y * b.y, a.z * b.z) }

  function Dot(a: Vec3, b: Vec3): real { a.x * b.x + a.y * b.y + a.z * b.z }

  function Abs(r: real): real { if r < 0.0 then -r else r }

  function Min(a: real, b: real): real { if a < b then a else b }

  function Max(a: real, b: real): real { if a < b then b else a }

  lemma DotSub(a: Vec3, b: Vec3, n: Vec3)
    ensures Dot(Sub(a, b), n) == Dot(a, n) - Dot(b, n)
  {
  }

  lemma DotScale(k: real, a: Vec3, n: Vec3)
    ensures Dot(Scale(k, a), n) == k * Dot(a, n)
  {
  }

  /** Scaling twice is scaling by the product. */
  lemma ScaleScale(j: real, k: real, v: Vec3)
    ensures Scale(j, Scale(k, v)) == Scale(j * k, v)
  {
    assert j * (k * v.x) == (j * k) * v.x;
    assert j * (k * v.y) == (j * k) * v.y;
    assert j * (k * v.z) == (j * k) * v.z;
  }

  /** Scaling by `x / d` and then by `d` is scaling by `x`. */
  lemma ScaleBack(d: real, x: real, v: Vec3)
    requires d != 0.0
    ensures Scale(d, Scale(x / d, v)) == Scale(x, v)
  {
    var k := x / d;
    assert d * k == x;
    assert d * (k * v.x) == (d * k) * v.x;
    assert d * (k * v.y) == (d * k) * v.y;
    assert d * (k * v.z) == (d * k) * v.z;
  }

  /**
   * glm's `proj(x, n)`: the component of `x` along `n`,
   * `dot(x, n) / dot(n, n) * n`. For the zero vector `n` glm divides
   * zero by zero; the model answers the zero vector there.
   */
  function Proj(a: Vec3, n: Vec3): (p: Vec3)
    ensures Dot(n, n) != 0.0 ==> Dot(Sub(a, p), n) == 0.0
    ensures Dot(n, n) != 0.0 ==> Scale(Dot(n, n), p) == Scale(Dot(a, n), n)
  {
    if Dot(n, n) == 0.0 then
      Zero()
    else
      var k := Dot(a, n) / Dot(n, n);
      assert Dot(Scale(k, n), n) == k * Dot(n, n);
      ScaleBack(Dot(n, n), Dot(a, n), n);
      Scale(k, n)
  }

  /**
   * The geometric helpers of glm that the model does not define:
   * `length(v)`, `normalize(v)` and the distance along a ray
   * `intersectRayPlane(origin, dir, planeOrigin, planeNormal, d)` writes to `d`.
   */
  datatype Glm = Glm(
    length: Vec3 -> real,
    normalize: Vec3 -> Vec3,
    rayPlane: (Vec3, Vec3, Vec3, Vec3) -> real)
}
