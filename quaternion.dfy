/**
  The algebraic, trigonometry-free part of irr::core::quaternion over the reals.

  The operators that return new values (`operator*`, `operator+`, `dotProduct`,
  `operator==`, `getMatrix()`) are functions on the value type `Quat`; the members that
  assign to the X/Y/Z/W fields of `*this` are methods of the class `Quaternion`, each
  specified by one of those functions.
 */
module Quaternions {
  import Vector3d
  import Matrix4

  /** X, Y, Z: the vectorial (imaginary) part; W: the real part. */
  datatype Quat = Quat(x: real, y: real, z: real, w: real)

  /** The value of a default-constructed quaternion: no rotation. */
  const Identity: Quat := Quat(0.0, 0.0, 0.0, 1.0)

  /** The threshold `slerp` uses when its caller passes none. */
  const DefaultSlerpThreshold: real := 0.05

  /**
    The trigonometric part of `slerp`, which this model does not interpret: from the
    cosine of the angle between the inputs and the time, the two weights
    sin(theta * (1 - time)) / sin(theta) and sin(theta * time) / sin(theta).
   */
  type SlerpWeights = (real, real) -> (real, real)

  /** `a * b`. */
  function Mul(a: Quat, b: Quat): Quat {
    Quat(
      (b.w * a.x) + (b.x * a.w) + (b.y * a.z) - (b.z * a.y),
      (b.w * a.y) + (b.y * a.w) + (b.z * a.x) - (b.x * a.z),
      (b.w * a.z) + (b.z * a.w) + (b.x * a.y) - (b.y * a.x),
      (b.w * a.w) - (b.x * a.x) - (b.y * a.y) - (b.z * a.z))
  }

  /** `q * s` with a scalar `s`. */
  function ScaleBy(q: Quat, s: real): Quat {
    Quat(s * q.x, s * q.y, s * q.z, s * q.w)
  }

  /** `a + b`. */
  function Add(a: Quat, b: Quat): Quat {
    Quat(a.x + b.x, a.y + b.y, a.z + b.z, a.w + b.w)
  }

  /** `a.dotProduct(b)`. */
  function Dot(a: Quat, b: Quat): real {
    (a.x * b.x) + (a.y * b.y) + (a.z * b.z) + (a.w * b.w)
  }

  /** `a == b`: exact comparison of the four components. */
  predicate Equal(a: Quat, b: Quat) {
    a.x == b.x && a.y == b.y && a.z == b.z && a.w == b.w
  }

  /** `a != b`. */
  predicate NotEqual(a: Quat, b: Quat) {
    !Equal(a, b)
  }

  /** What `makeInverse` leaves in `*this`. */
  function InverseOf(q: Quat): Quat {
    Quat(-q.x, -q.y, -q.z, q.w)
  }

  /** What `lerp(q1, q2, time)` leaves in `*this`. */
  function LerpOf(q1: Quat, q2: Quat, time: real): Quat {
    var scale := 1.0 - time;
    Add(ScaleBy(q1, scale), ScaleBy(q2, time))
  }

  /**
    What `slerp(q1, q2, time, threshold)` leaves in `*this`: `q1` is negated when the dot
    product is negative, so that the short arc is taken; above 1 - threshold the result is
    the linear interpolation, otherwise the spherical one, whose weights come from `trig`.
   */
  function SlerpOf(q1: Quat, q2: Quat, time: real, threshold: real, trig: SlerpWeights): Quat {
    var angle := Dot(q1, q2);
    var a := if angle < 0.0 then ScaleBy(q1, -1.0) else q1;
    var cosine := if angle < 0.0 then angle * -1.0 else angle;
    if cosine <= 1.0 - threshold then
      var (scale, invscale) := trig(cosine, time);
      Add(ScaleBy(a, scale), ScaleBy(q2, invscale))
    else
      LerpOf(a, q2, time)
  }

  /** `getMatrix(dest, center)`: the rotation matrix with `center` as its translation. */
  function MatrixOf(q: Quat, center: Vector3d.Vec3): (m: Matrix4.Matrix) {
    var X, Y, Z, W := q.x, q.y, q.z, q.w;
    [1.0 - 2.0 * Y * Y - 2.0 * Z * Z, 2.0 * X * Y + 2.0 * Z * W, 2.0 * X * Z - 2.0 * Y * W, 0.0,
     2.0 * X * Y - 2.0 * Z * W, 1.0 - 2.0 * X * X - 2.0 * Z * Z, 2.0 * Z * Y + 2.0 * X * W, 0.0,
     2.0 * X * Z + 2.0 * Y * W, 2.0 * Z * Y - 2.0 * X * W, 1.0 - 2.0 * X * X - 2.0 * Y * Y, 0.0,
     center.x, center.y, center.z, 1.0]
  }

  /** `getMatrix_transposed(dest)`: the sixteen elements it writes. */
  function TransposedMatrixOf(q: Quat): (m: Matrix4.Matrix) {
    var X, Y, Z, W := q.x, q.y, q.z, q.w;
    [1.0 - 2.0 * Y * Y - 2.0 * Z * Z, 2.0 * X * Y - 2.0 * Z * W, 2.0 * X * Z + 2.0 * Y * W, 0.0,
     2.0 * X * Y + 2.0 * Z * W, 1.0 - 2.0 * X * X - 2.0 * Z * Z, 2.0 * Z * Y - 2.0 * X * W, 0.0,
     2.0 * X * Z - 2.0 * Y * W, 2.0 * Z * Y + 2.0 * X * W, 1.0 - 2.0 * X * X - 2.0 * Y * Y, 0.0,
     0.0, 0.0, 0.0, 1.0]
  }

  // ---------------------------------------------------------------- properties

  /** The identity quaternion is a two-sided unit of `operator*`. */
  lemma IdentityIsUnit(q: Quat)
    ensures Mul(Identity, q) == q
    ensures Mul(q, Identity) == q
  {
  }

  /** `operator*` is not commutative, so the operand order of `operator*=` matters. */
  lemma MulNotCommutative()
    ensures Mul(Quat(1.0, 0.0, 0.0, 0.0), Quat(0.0, 1.0, 0.0, 0.0))
         != Mul(Quat(0.0, 1.0, 0.0, 0.0), Quat(1.0, 0.0, 0.0, 0.0))
  {
  }

  /** `makeInverse` negates the vectorial part only, and applying it twice restores the quaternion. */
  lemma InverseInvolutive(q: Quat)
    ensures InverseOf(q).x == -q.x && InverseOf(q).y == -q.y && InverseOf(q).z == -q.z
    ensures InverseOf(q).w == q.w
    ensures InverseOf(InverseOf(q)) == q
  {
  }

  /** `lerp` starts at its first argument and ends at its second. */
  lemma LerpEndPoints(q1: Quat, q2: Quat)
    ensures LerpOf(q1, q2, 0.0) == q1
    ensures LerpOf(q1, q2, 1.0) == q2
  {
  }

  /** `dotProduct` is symmetric. */
  lemma DotSymmetric(a: Quat, b: Quat)
    ensures Dot(a, b) == Dot(b, a)
  {
  }

  /** `operator==` is componentwise equality and `operator!=` its negation. */
  lemma EqualIsComponentwise(a: Quat, b: Quat)
    ensures Equal(a, b) <==> a == b
    ensures NotEqual(a, b) <==> a != b
  {
  }

  /** Negating a quaternion negates its dot product with any other. */
  lemma DotOfNegated(a: Quat, b: Quat)
    ensures Dot(ScaleBy(a, -1.0), b) == -Dot(a, b)
  {
  }

  /**
    `slerp` always works with a non-negative cosine: it flips `q1` exactly when the dot
    product is negative, and when the cosine exceeds 1 - threshold its result is `lerp`
    applied to the possibly flipped `q1`.
   */
  lemma SlerpTakesShortArc(q1: Quat, q2: Quat, time: real, threshold: real, trig: SlerpWeights)
    ensures var a := if Dot(q1, q2) < 0.0 then ScaleBy(q1, -1.0) else q1;
            && Dot(a, q2) >= 0.0
            && (Dot(a, q2) > 1.0 - threshold ==> SlerpOf(q1, q2, time, threshold, trig) == LerpOf(a, q2, time))
            && (Dot(a, q2) <= 1.0 - threshold ==>
                  SlerpOf(q1, q2, time, threshold, trig)
                  == Add(ScaleBy(a, trig(Dot(a, q2), time).0), ScaleBy(q2, trig(Dot(a, q2), time).1)))
  {
    DotOfNegated(q1, q2);
  }

  /** `getMatrix_transposed` writes zeros into the translation (12..14) and elements 3, 7, 11, and a one into 15. */
  lemma TransposedMatrixCorner(q: Quat)
    ensures var t := TransposedMatrixOf(q);
            t[3] == 0.0 && t[7] == 0.0 && t[11] == 0.0 &&
            t[12] == 0.0 && t[13] == 0.0 && t[14] == 0.0 && t[15] == 1.0
  {
  }

  /** The rotation block `getMatrix_transposed` writes is the transpose of the one `getMatrix` writes. */
  lemma TransposedMatrixShape(q: Quat)
    ensures forall r, c | 0 <= r < 3 && 0 <= c < 3 ::
              TransposedMatrixOf(q)[4 * r + c] == MatrixOf(q, Vector3d.Zero)[4 * c + r]
  {
  }

  // ---------------------------------------------------------------- the mutable quaternion

  /** A quaternion object whose members assign to its own components. */
  class Quaternion {
    var x: real
    var y: real
    var z: real
    var w: real

    function Value(): Quat
      reads this
    {
      Quat(x, y, z, w)
    }

    /** `quaternion()`: the identity. */
    constructor ()
      ensures Value() == Identity
    {
      x, y, z, w := 0.0, 0.0, 0.0, 1.0;
    }

    /** `quaternion(x, y, z, w)`. */
    constructor FromComponents(x0: real, y0: real, z0: real, w0: real)
      ensures Value() == Quat(x0, y0, z0, w0)
    {
      x, y, z, w := x0, y0, z0, w0;
    }

    /** `set(x, y, z, w)`. */
    method Set(x0: real, y0: real, z0: real, w0: real)
      modifies this
      ensures Value() == Quat(x0, y0, z0, w0)
    {
      x := x0;
      y := y0;
      z := z0;
      w := w0;
    }

    /** `makeIdentity()`. */
    method MakeIdentity()
      modifies this
      ensures Value() == Identity
    {
      w := 1.0;
      x := 0.0;
      y := 0.0;
      z := 0.0;
    }

    /** `makeInverse()`. */
    method MakeInverse()
      modifies this
      ensures Value() == InverseOf(old(Value()))
    {
      x, y, z := -x, -y, -z;
    }

    /** `operator*=(s)` with a scalar. */
    method ScaleAssign(s: real)
      modifies this
      ensures Value() == ScaleBy(old(Value()), s)
    {
      x := x * s;
      y := y * s;
      z := z * s;
      w := w * s;
    }

    /** `operator*=(other)`: stores `other * (*this)`, a pre-multiplication. */
    method MulAssign(other: Quat)
      modifies this
      ensures Value() == Mul(other, old(Value()))
    {
      var product := Mul(other, Value());
      x, y, z, w := product.x, product.y, product.z, product.w;
    }

    /** `lerp(q1, q2, time)`. */
    method Lerp(q1: Quat, q2: Quat, time: real)
      modifies this
      ensures Value() == LerpOf(q1, q2, time)
    {
      var scale := 1.0 - time;
      var r := Add(ScaleBy(q1, scale), ScaleBy(q2, time));
      x, y, z, w := r.x, r.y, r.z, r.w;
    }

    /** `slerp(q1, q2, time, threshold)`. */
    method Slerp(q1: Quat, q2: Quat, time: real, threshold: real, trig: SlerpWeights)
      modifies this
      ensures Value() == SlerpOf(q1, q2, time, threshold, trig)
    {
      var a := q1;
      var angle := Dot(a, q2);
      if angle < 0.0 {
        a := ScaleBy(a, -1.0);
        angle := angle * -1.0;
      }
      if angle <= 1.0 - threshold {
        var (scale, invscale) := trig(angle, time);
        var r := Add(ScaleBy(a, scale), ScaleBy(q2, invscale));
        x, y, z, w := r.x, r.y, r.z, r.w;
      } else {
        Lerp(a, q2, time);
      }
    }

    /** `getMatrix(dest, center)`. */
    method GetMatrix(dest: array<real>, center: Vector3d.Vec3)
      requires dest.Length == 16
      modifies dest
      ensures dest[..] == MatrixOf(Value(), center)
    {
      var m := MatrixOf(Value(), center);
      forall i | 0 <= i < 16 {
        dest[i] := m[i];
      }
    }

    /** `getMatrix_transposed(dest)`. */
    method GetMatrixTransposed(dest: array<real>)
      requires dest.Length == 16
      modifies dest
      ensures dest[..] == TransposedMatrixOf(Value())
    {
      var m := TransposedMatrixOf(Value());
      forall i | 0 <= i < 16 {
        dest[i] := m[i];
      }
    }
  }
}
