/** Quaternions (`quat4_t`, stored x, y, z, w) and the operations of
    quaternion.cpp.  The `Quaternion` class of quaternion.h, whose fields are
    declared w, x, y, z, denotes the same value and is modelled by the same
    datatype. */
module Quaternion {
  import opened RealMath
  import opened Vector

  datatype Quat = Quat(x: real, y: real, z: real, w: real)

  const Identity := Quat(0.0, 0.0, 0.0, 1.0)

  function Norm2(q: Quat): real {
    q.x * q.x + q.y * q.y + q.z * q.z + q.w * q.w
  }

  predicate IsUnit(q: Quat) {
    Norm2(q) == 1.0
  }

  function ScaleQ(q: Quat, k: real): Quat {
    Quat(q.x * k, q.y * k, q.z * k, q.w * k)
  }

  function NegateQ(q: Quat): Quat {
    Quat(-q.x, -q.y, -q.z, -q.w)
  }

  function AddQ(a: Quat, b: Quat): Quat {
    Quat(a.x + b.x, a.y + b.y, a.z + b.z, a.w + b.w)
  }

  function VecPart(q: Quat): Vec3 {
    Vec3(q.x, q.y, q.z)
  }

  /** The pure quaternion (v, 0). */
  function Pure(v: Vec3): Quat {
    Quat(v.x, v.y, v.z, 0.0)
  }

  /** `Quat_computeW`: recovers the w of a unit quaternion from x, y, z,
      choosing the non-positive root; when x, y, z already have squared
      length above 1, w is set to 0. */
  ghost function ComputeW(q: Quat): (r: Quat)
    ensures r.x == q.x && r.y == q.y && r.z == q.z
    ensures r.w <= 0.0
    ensures 1.0 - q.x * q.x - q.y * q.y - q.z * q.z < 0.0 ==> r.w == 0.0
    ensures var t := 1.0 - q.x * q.x - q.y * q.y - q.z * q.z;
      t >= 0.0 && HasRoot(t) ==> IsUnit(r)
  {
    var t := 1.0 - q.x * q.x - q.y * q.y - q.z * q.z;
    if t < 0.0 then Quat(q.x, q.y, q.z, 0.0)
    else Quat(q.x, q.y, q.z, -Sqrt(t))
  }

  /** `Quat_normalize`: a quaternion of magnitude 0 is left as it is;
      otherwise the result has unit norm and, scaled back by the original
      magnitude, gives the input again. */
  ghost function Normalize(q: Quat): (r: Quat)
    ensures Norm2(q) == 0.0 ==> r == q
    ensures Norm2(q) > 0.0 ==> ScaleQ(r, Sqrt(Norm2(q))) == q
    ensures Norm2(q) > 0.0 && HasRoot(Norm2(q)) ==> IsUnit(r)
  {
    var mag := Sqrt(Norm2(q));
    if mag > 0.0 then
      NormalizeFacts(q, mag);
      ScaleQ(q, 1.0 / mag)
    else q
  }

  lemma NormalizeFacts(q: Quat, mag: real)
    requires mag > 0.0 && mag == Sqrt(Norm2(q))
    ensures ScaleQ(ScaleQ(q, 1.0 / mag), mag) == q
    ensures HasRoot(Norm2(q)) ==> IsUnit(ScaleQ(q, 1.0 / mag))
  {
    ScaleQBack(q, 1.0 / mag, mag);
    ScaleQNorm2(q, 1.0 / mag);
    if HasRoot(Norm2(q)) {
      InverseSquare(mag, Norm2(q));
    }
  }

  lemma ScaleQBack(q: Quat, k: real, m: real)
    requires k * m == 1.0
    ensures ScaleQ(ScaleQ(q, k), m) == q
  {
    assert (q.x * k) * m == q.x * (k * m);
    assert (q.y * k) * m == q.y * (k * m);
    assert (q.z * k) * m == q.z * (k * m);
    assert (q.w * k) * m == q.w * (k * m);
  }

  lemma ScaleQNorm2(q: Quat, k: real)
    ensures Norm2(ScaleQ(q, k)) == k * k * Norm2(q)
  {
    assert (q.x * k) * (q.x * k) == k * k * (q.x * q.x);
    assert (q.y * k) * (q.y * k) == k * k * (q.y * q.y);
    assert (q.z * k) * (q.z * k) == k * k * (q.z * q.z);
    assert (q.w * k) * (q.w * k) == k * k * (q.w * q.w);
  }

  /** `Quat_multQuat`: the Hamilton product in (x, y, z, w) layout. */
  function Mult(a: Quat, b: Quat): Quat {
    Quat((a.x * b.w) + (a.w * b.x) + (a.y * b.z) - (a.z * b.y),
         (a.y * b.w) + (a.w * b.y) + (a.z * b.x) - (a.x * b.z),
         (a.z * b.w) + (a.w * b.z) + (a.x * b.y) - (a.y * b.x),
         (a.w * b.w) - (a.x * b.x) - (a.y * b.y) - (a.z * b.z))
  }

  /** `Quat_multVec`: the product of `q` with the pure quaternion of `v`. */
  function MultVec(q: Quat, v: Vec3): (r: Quat)
    ensures r == Mult(q, Pure(v))
  {
    Quat((q.w * v.x) + (q.y * v.z) - (q.z * v.y),
         (q.w * v.y) + (q.z * v.x) - (q.x * v.z),
         (q.w * v.z) + (q.x * v.y) - (q.y * v.x),
         - (q.x * v.x) - (q.y * v.y) - (q.z * v.z))
  }

  /** `Quat_conjugate`: negates the vector part, keeping the norm. */
  function Conjugate(q: Quat): (r: Quat)
    ensures Norm2(r) == Norm2(q)
  {
    Quat(-q.x, -q.y, -q.z, q.w)
  }

  /** `Quat_inverse`: the normalised conjugate. */
  ghost function Inverse(q: Quat): (r: Quat)
    ensures Norm2(q) == 0.0 ==> r == Conjugate(q)
    ensures IsUnit(q) ==> r == Conjugate(q)
  {
    SqrtOne();
    Normalize(Conjugate(q))
  }

  /** `Quat_rotatePoint`: the sandwich product q v q^-1, keeping the vector
      part; for a unit `q` the inverse is the plain conjugate. */
  ghost function RotatePoint(q: Quat, v: Vec3): (r: Vec3)
    ensures IsUnit(q) ==> r == VecPart(Mult(Mult(q, Pure(v)), Conjugate(q)))
  {
    VecPart(Mult(MultVec(q, v), Inverse(q)))
  }

  /** `Quat_dotProduct`: the four-dimensional dot product. */
  function Dot4(a: Quat, b: Quat): (r: real)
    ensures r == Dot(VecPart(a), VecPart(b)) + a.w * b.w
    ensures a == b ==> r == Norm2(a)
  {
    (a.x * b.x) + (a.y * b.y) + (a.z * b.z) + (a.w * b.w)
  }

  /** The weights (k0, k1) `Quat_slerp` gives the first and the (possibly
      negated) second quaternion, from the non-negative cosine of the angle
      between them.  Near-parallel quaternions are interpolated linearly;
      otherwise the spherical weights use the uninterpreted trigonometry,
      and the divisor sin(omega) is never zero. */
  ghost function SlerpWeights(cosOmega: real, t: real): (k: (real, real))
    requires cosOmega >= 0.0
    ensures cosOmega > 0.9999 ==> k.0 == 1.0 - t && k.1 == t
    ensures cosOmega > 0.9999 ==> k.0 + k.1 == 1.0
  {
    if cosOmega > 0.9999 then (1.0 - t, t)
    else
      var sinOmega := SinFromCos(cosOmega);
      var omega := Atan2(sinOmega, cosOmega);
      (Sin((1.0 - t) * omega) * (1.0 / sinOmega), Sin(t * omega) * (1.0 / sinOmega))
  }

  /** sqrt(1 - c^2), positive for 0 <= c <= 0.9999. */
  ghost function SinFromCos(c: real): (r: real)
    requires 0.0 <= c <= 0.9999
    ensures r > 0.0
    ensures HasRoot(1.0 - c * c) ==> r * r + c * c == 1.0
  {
    assert c * c <= c * 0.9999 < 1.0;
    Sqrt(1.0 - c * c)
  }

  /** The second endpoint, negated when it lies in the opposite hemisphere
      so that the interpolation takes the shorter arc. */
  function ShortestArc(qa: Quat, qb: Quat): (r: Quat)
    ensures Dot4(qa, r) >= 0.0
    ensures r == qb || r == NegateQ(qb)
  {
    if Dot4(qa, qb) < 0.0 then NegateQ(qb) else qb
  }

  /** `Quat_slerp(qa, qb, t)`: the endpoints are returned exactly for t
      outside (0, 1); inside, the result is the weighted sum of `qa` and the
      shortest-arc copy of `qb`, and for nearly parallel endpoints the
      weights are the linear ones, 1 - t and t. */
  ghost function Slerp(qa: Quat, qb: Quat, t: real): (r: Quat)
    ensures t <= 0.0 ==> r == qa
    ensures t >= 1.0 ==> r == qb
    ensures 0.0 < t < 1.0 && Dot4(qa, qb) > 0.9999 ==>
      r == AddQ(ScaleQ(qa, 1.0 - t), ScaleQ(qb, t))
    ensures 0.0 < t < 1.0 && Dot4(qa, qb) < -0.9999 ==>
      r == AddQ(ScaleQ(qa, 1.0 - t), ScaleQ(NegateQ(qb), t))
  {
    if t <= 0.0 then qa
    else if t >= 1.0 then qb
    else
      var q1 := ShortestArc(qa, qb);
      DotNegate(qa, qb);
      var k := SlerpWeights(Dot4(qa, q1), t);
      AddQ(ScaleQ(qa, k.0), ScaleQ(q1, k.1))
  }

  /** The angle and unit axis `Quat_toAngleAxis` reports. */
  datatype AngleAxis = AngleAxis(angle: real, axis: Vec3)

  const FallbackAxis := Vec3(1.0, 0.0, 0.0)

  /** `Quat_toAngleAxis`: normalises a copy of `q` and reads the angle and
      axis off the copy.  A quaternion without a vector part is the zero
      rotation about x; otherwise (given the root the normalisation needs)
      the axis is parallel to the vector part and points its way, and the
      angle is non-negative. */
  ghost function ToAngleAxis(q: Quat): (r: AngleAxis)
    ensures Length2(VecPart(q)) == 0.0 ==> r == AngleAxis(0.0, FallbackAxis)
    ensures HasRoot(Norm2(q)) && Length2(VecPart(q)) > 0.0 ==>
      r.angle >= 0.0 && Cross(r.axis, VecPart(q)) == Zero && Dot(r.axis, VecPart(q)) > 0.0
  {
    var qp := Normalize(q);
    ToAngleAxisFacts(q, qp);
    AngleAxisOfNormalized(qp)
  }

  /** The normalised copy has a vector part exactly when `q` has one, and
      then it points the same way as that of `q`. */
  lemma ToAngleAxisFacts(q: Quat, qp: Quat)
    requires qp == Normalize(q)
    ensures Length2(VecPart(q)) == 0.0 ==> Length2(VecPart(qp)) == 0.0
    ensures HasRoot(Norm2(q)) && Length2(VecPart(q)) > 0.0 ==>
      qp.w <= 1.0 && Length2(VecPart(qp)) > 0.0 &&
      Cross(Vector.Normalize(VecPart(qp)), VecPart(q)) == Zero &&
      Dot(Vector.Normalize(VecPart(qp)), VecPart(q)) > 0.0
  {
    var v, u := VecPart(q), VecPart(qp);
    Length2Zero(v);
    Length2Zero(u);
    NormSplit(q);
    if Norm2(q) == 0.0 {
      assert qp == q;
    } else {
      var mag := Sqrt(Norm2(q));
      assert ScaleQ(qp, mag) == q;
      assert v == Scale(u, mag);
      ScaleNonZero(u, mag);
      if Length2(v) > 0.0 && HasRoot(Norm2(q)) {
        NormSplit(qp);
        UnitScalarBound(qp);
        SameDirectionScaled(Vector.Normalize(u), u, mag);
      }
    }
  }

  /** The squared norm is that of the vector part plus w squared. */
  lemma NormSplit(q: Quat)
    ensures Norm2(q) == Length2(VecPart(q)) + q.w * q.w
    ensures q.w * q.w >= 0.0
  {
  }

  /** A unit quaternion has w at most 1. */
  lemma UnitScalarBound(q: Quat)
    requires IsUnit(q)
    ensures q.w <= 1.0
  {
    Length2Zero(VecPart(q));
    NormSplit(q);
    SquareBelowOne(Length2(VecPart(q)), q.w);
  }

  lemma SquareBelowOne(l: real, w: real)
    requires l >= 0.0 && l + w * w == 1.0
    ensures w <= 1.0
  {
    if w > 1.0 {
      SquareStrictlyMonotone(1.0, w);
    }
  }

  /** The second half of `Quat_toAngleAxis`: when the normalised copy `qp`
      has w <= 1 and a non-zero vector part, the axis is that vector part
      scaled to unit length and the angle is twice the arc cosine of w;
      otherwise the angle is 0 about the x axis. */
  ghost function AngleAxisOfNormalized(qp: Quat): (r: AngleAxis)
    ensures !(qp.w <= 1.0 && Length2(VecPart(qp)) > 0.0) ==> r == AngleAxis(0.0, FallbackAxis)
    ensures qp.w <= 1.0 && Length2(VecPart(qp)) > 0.0 ==>
      r.angle >= 0.0 && r.axis == Vector.Normalize(VecPart(qp))
  {
    var v := VecPart(qp);
    var lenSqr := v.x * v.x + v.y * v.y + v.z * v.z;
    assert lenSqr == Length2(v);
    if qp.w <= 1.0 && lenSqr > 0.0 then
      var invLen := 1.0 / Sqrt(lenSqr);
      var axis := Vec3(v.x * invLen, v.y * invLen, v.z * invLen);
      ReciprocalScale(v);
      assert axis == Vector.Normalize(v);
      AngleAxis(2.0 * Acos(qp.w), axis)
    else
      AngleAxis(0.0, FallbackAxis)
  }

  /** Scaling by the reciprocal of the length is `vec_normalize`. */
  lemma ReciprocalScale(v: Vec3)
    requires Length2(v) > 0.0
    ensures var invLen := 1.0 / Sqrt(v.x * v.x + v.y * v.y + v.z * v.z);
      Vec3(v.x * invLen, v.y * invLen, v.z * invLen) == Vector.Normalize(v)
  {
    var len := Sqrt(Length2(v));
    assert Length2(v) == v.x * v.x + v.y * v.y + v.z * v.z;
    assert Vector.Normalize(v) == Vec3(v.x / len, v.y / len, v.z / len);
    assert v.x * (1.0 / len) == v.x / len;
    assert v.y * (1.0 / len) == v.y / len;
    assert v.z * (1.0 / len) == v.z / len;
  }

  lemma DotNegate(a: Quat, b: Quat)
    ensures Dot4(a, NegateQ(b)) == -Dot4(a, b)
  {
  }
}
