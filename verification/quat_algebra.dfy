/** Algebraic laws of the quaternion operations of quaternion.cpp: the
    identity, associativity, the conjugate and inverse, and rotation of a
    point and its undoing. */
module QuatAlgebra {
  import opened RealMath
  import opened Vector
  import opened Quaternion

  /** (0, 0, 0, 1) is a two-sided identity of `Quat_multQuat`. */
  lemma MultIdentity(q: Quat)
    ensures Mult(Identity, q) == q
    ensures Mult(q, Identity) == q
  {
  }

  /** `Quat_multQuat` is associative. */
  lemma MultAssociative(a: Quat, b: Quat, c: Quat)
    ensures Mult(Mult(a, b), c) == Mult(a, Mult(b, c))
  {
    AssociativeX(a, b, c);
    AssociativeY(a, b, c);
    AssociativeZ(a, b, c);
    AssociativeW(a, b, c);
  }

  /** The components of a product, one equation each. */
  lemma MultComponents(a: Quat, b: Quat)
    ensures Mult(a, b).x == a.x * b.w + a.w * b.x + a.y * b.z - a.z * b.y
    ensures Mult(a, b).y == a.y * b.w + a.w * b.y + a.z * b.x - a.x * b.z
    ensures Mult(a, b).z == a.z * b.w + a.w * b.z + a.x * b.y - a.y * b.x
    ensures Mult(a, b).w == a.w * b.w - a.x * b.x - a.y * b.y - a.z * b.z
  {
  }

  /** Component x of associativity as a polynomial identity, with the
      two inner products named. */
  lemma PolynomialAssociativeX(
      px: real, py: real, pz: real, pw: real,
      qx: real, qy: real, qz: real, qw: real,
      sx: real, sy: real, sz: real, sw: real,
      pqx: real, pqy: real, pqz: real, pqw: real,
      qsx: real, qsy: real, qsz: real, qsw: real)
    requires pqx == px * qw + pw * qx + py * qz - pz * qy
    requires pqy == py * qw + pw * qy + pz * qx - px * qz
    requires pqz == pz * qw + pw * qz + px * qy - py * qx
    requires pqw == pw * qw - px * qx - py * qy - pz * qz
    requires qsx == qx * sw + qw * sx + qy * sz - qz * sy
    requires qsy == qy * sw + qw * sy + qz * sx - qx * sz
    requires qsz == qz * sw + qw * sz + qx * sy - qy * sx
    requires qsw == qw * sw - qx * sx - qy * sy - qz * sz
    ensures pqx * sw + pqw * sx + pqy * sz - pqz * sy == px * qsw + pw * qsx + py * qsz - pz * qsy
  {
  }


  /** Component y of associativity as a polynomial identity, with the
      two inner products named. */
  lemma PolynomialAssociativeY(
      px: real, py: real, pz: real, pw: real,
      qx: real, qy: real, qz: real, qw: real,
      sx: real, sy: real, sz: real, sw: real,
      pqx: real, pqy: real, pqz: real, pqw: real,
      qsx: real, qsy: real, qsz: real, qsw: real)
    requires pqx == px * qw + pw * qx + py * qz - pz * qy
    requires pqy == py * qw + pw * qy + pz * qx - px * qz
    requires pqz == pz * qw + pw * qz + px * qy - py * qx
    requires pqw == pw * qw - px * qx - py * qy - pz * qz
    requires qsx == qx * sw + qw * sx + qy * sz - qz * sy
    requires qsy == qy * sw + qw * sy + qz * sx - qx * sz
    requires qsz == qz * sw + qw * sz + qx * sy - qy * sx
    requires qsw == qw * sw - qx * sx - qy * sy - qz * sz
    ensures pqy * sw + pqw * sy + pqz * sx - pqx * sz == py * qsw + pw * qsy + pz * qsx - px * qsz
  {
  }


  /** Component z of associativity as a polynomial identity, with the
      two inner products named. */
  lemma PolynomialAssociativeZ(
      px: real, py: real, pz: real, pw: real,
      qx: real, qy: real, qz: real, qw: real,
      sx: real, sy: real, sz: real, sw: real,
      pqx: real, pqy: real, pqz: real, pqw: real,
      qsx: real, qsy: real, qsz: real, qsw: real)
    requires pqx == px * qw + pw * qx + py * qz - pz * qy
    requires pqy == py * qw + pw * qy + pz * qx - px * qz
    requires pqz == pz * qw + pw * qz + px * qy - py * qx
    requires pqw == pw * qw - px * qx - py * qy - pz * qz
    requires qsx == qx * sw + qw * sx + qy * sz - qz * sy
    requires qsy == qy * sw + qw * sy + qz * sx - qx * sz
    requires qsz == qz * sw + qw * sz + qx * sy - qy * sx
    requires qsw == qw * sw - qx * sx - qy * sy - qz * sz
    ensures pqz * sw + pqw * sz + pqx * sy - pqy * sx == pz * qsw + pw * qsz + px * qsy - py * qsx
  {
  }


  /** Component w of associativity as a polynomial identity, with the
      two inner products named. */
  lemma PolynomialAssociativeW(
      px: real, py: real, pz: real, pw: real,
      qx: real, qy: real, qz: real, qw: real,
      sx: real, sy: real, sz: real, sw: real,
      pqx: real, pqy: real, pqz: real, pqw: real,
      qsx: real, qsy: real, qsz: real, qsw: real)
    requires pqx == px * qw + pw * qx + py * qz - pz * qy
    requires pqy == py * qw + pw * qy + pz * qx - px * qz
    requires pqz == pz * qw + pw * qz + px * qy - py * qx
    requires pqw == pw * qw - px * qx - py * qy - pz * qz
    requires qsx == qx * sw + qw * sx + qy * sz - qz * sy
    requires qsy == qy * sw + qw * sy + qz * sx - qx * sz
    requires qsz == qz * sw + qw * sz + qx * sy - qy * sx
    requires qsw == qw * sw - qx * sx - qy * sy - qz * sz
    ensures pqw * sw - pqx * sx - pqy * sy - pqz * sz == pw * qsw - px * qsx - py * qsy - pz * qsz
  {
  }


  lemma AssociativeX(a: Quat, b: Quat, c: Quat)
    ensures Mult(Mult(a, b), c).x == Mult(a, Mult(b, c)).x
  {
    var ab, bc := Mult(a, b), Mult(b, c);
    MultComponents(a, b);
    MultComponents(b, c);
    PolynomialAssociativeX(a.x, a.y, a.z, a.w, b.x, b.y, b.z, b.w, c.x, c.y, c.z, c.w,
      ab.x, ab.y, ab.z, ab.w, bc.x, bc.y, bc.z, bc.w);
  }

  lemma AssociativeY(a: Quat, b: Quat, c: Quat)
    ensures Mult(Mult(a, b), c).y == Mult(a, Mult(b, c)).y
  {
    var ab, bc := Mult(a, b), Mult(b, c);
    MultComponents(a, b);
    MultComponents(b, c);
    PolynomialAssociativeY(a.x, a.y, a.z, a.w, b.x, b.y, b.z, b.w, c.x, c.y, c.z, c.w,
      ab.x, ab.y, ab.z, ab.w, bc.x, bc.y, bc.z, bc.w);
  }

  lemma AssociativeZ(a: Quat, b: Quat, c: Quat)
    ensures Mult(Mult(a, b), c).z == Mult(a, Mult(b, c)).z
  {
    var ab, bc := Mult(a, b), Mult(b, c);
    MultComponents(a, b);
    MultComponents(b, c);
    PolynomialAssociativeZ(a.x, a.y, a.z, a.w, b.x, b.y, b.z, b.w, c.x, c.y, c.z, c.w,
      ab.x, ab.y, ab.z, ab.w, bc.x, bc.y, bc.z, bc.w);
  }

  lemma AssociativeW(a: Quat, b: Quat, c: Quat)
    ensures Mult(Mult(a, b), c).w == Mult(a, Mult(b, c)).w
  {
    var ab, bc := Mult(a, b), Mult(b, c);
    MultComponents(a, b);
    MultComponents(b, c);
    PolynomialAssociativeW(a.x, a.y, a.z, a.w, b.x, b.y, b.z, b.w, c.x, c.y, c.z, c.w,
      ab.x, ab.y, ab.z, ab.w, bc.x, bc.y, bc.z, bc.w);
  }

  lemma ConjugateInvolution(q: Quat)
    ensures Conjugate(Conjugate(q)) == q
  {
  }

  /** q q* and q* q are the real quaternion |q|^2. */
  lemma MultConjugate(q: Quat)
    ensures Mult(q, Conjugate(q)) == Quat(0.0, 0.0, 0.0, Norm2(q))
    ensures Mult(Conjugate(q), q) == Quat(0.0, 0.0, 0.0, Norm2(q))
  {
  }

  /** For a unit quaternion the inverse is the conjugate and cancels `q` on
      both sides. */
  lemma InverseOfUnit(q: Quat)
    requires IsUnit(q)
    ensures Inverse(q) == Conjugate(q)
    ensures Mult(q, Inverse(q)) == Identity
    ensures Mult(Inverse(q), q) == Identity
  {
    MultConjugate(q);
  }

  /** The norm is multiplicative (Euler's four-square identity). */
  lemma Norm2Mult(a: Quat, b: Quat)
    ensures Norm2(Mult(a, b)) == Norm2(a) * Norm2(b)
  {
    var ab := Mult(a, b);
    MultComponents(a, b);
    FourSquare(a.x, a.y, a.z, a.w, b.x, b.y, b.z, b.w, ab.x, ab.y, ab.z, ab.w);
  }

  lemma FourSquare(px: real, py: real, pz: real, pw: real,
                   qx: real, qy: real, qz: real, qw: real,
                   rx: real, ry: real, rz: real, rw: real)
    requires rx == px * qw + pw * qx + py * qz - pz * qy
    requires ry == py * qw + pw * qy + pz * qx - px * qz
    requires rz == pz * qw + pw * qz + px * qy - py * qx
    requires rw == pw * qw - px * qx - py * qy - pz * qz
    ensures rx * rx + ry * ry + rz * rz + rw * rw
         == (px * px + py * py + pz * pz + pw * pw) * (qx * qx + qy * qy + qz * qz + qw * qw)
  {
  }

  lemma ConjugateOfProduct(a: Quat, b: Quat)
    ensures Conjugate(Mult(a, b)) == Mult(Conjugate(b), Conjugate(a))
  {
    MultComponents(a, b);
    MultComponents(Conjugate(b), Conjugate(a));
  }

  /** In scalar-and-vector form the product has scalar part
      a.w b.w - a.v . b.v and vector part a.w b.v + b.w a.v + a.v x b.v. */
  lemma MultScalarVector(a: Quat, b: Quat)
    ensures Mult(a, b).w == a.w * b.w - Dot(VecPart(a), VecPart(b))
    ensures VecPart(Mult(a, b)) ==
      Add(Add(Scale(VecPart(b), a.w), Scale(VecPart(a), b.w)), Cross(VecPart(a), VecPart(b)))
  {
  }

  /** The four-dimensional dot product is the scalar part of a times the
      conjugate of b. */
  lemma Dot4Conjugate(a: Quat, b: Quat)
    ensures Dot4(a, b) == Mult(a, Conjugate(b)).w
  {
    MultComponents(a, Conjugate(b));
  }

  /** Rotating by the identity quaternion leaves a point where it is. */
  lemma RotatePointIdentity(v: Vec3)
    ensures RotatePoint(Identity, v) == v
  {
    assert IsUnit(Identity);
    MultIdentity(Pure(v));
  }

  /** `Quat_normalize` leaves a unit quaternion unchanged. */
  lemma NormalizeUnit(q: Quat)
    requires IsUnit(q)
    ensures Quaternion.Normalize(q) == q
  {
    SqrtOne();
    var r := Quaternion.Normalize(q);
    assert ScaleQ(r, 1.0) == q;
  }

  /** Interpolating a unit quaternion with itself gives it back at every
      parameter. */
  lemma SlerpSame(a: Quat, t: real)
    requires IsUnit(a)
    ensures Slerp(a, a, t) == a
  {
    if 0.0 < t < 1.0 {
      assert Dot4(a, a) == Norm2(a);
      var r := AddQ(ScaleQ(a, 1.0 - t), ScaleQ(a, t));
      assert a.x * (1.0 - t) + a.x * t == a.x;
      assert a.y * (1.0 - t) + a.y * t == a.y;
      assert a.z * (1.0 - t) + a.z * t == a.z;
      assert a.w * (1.0 - t) + a.w * t == a.w;
      assert r == a;
    }
  }

  /** q and -q stand for the same rotation, and `Quat_slerp` does not tell
      them apart as a second endpoint unless they are orthogonal to the
      first. */
  lemma SlerpShortestPath(qa: Quat, qb: Quat, t: real)
    requires 0.0 < t < 1.0
    requires Dot4(qa, qb) != 0.0
    ensures Slerp(qa, NegateQ(qb), t) == Slerp(qa, qb, t)
  {
    DotNegate(qa, qb);
    assert NegateQ(NegateQ(qb)) == qb;
    assert ShortestArc(qa, NegateQ(qb)) == ShortestArc(qa, qb);
  }

  /** The identity quaternion has no axis: the zero rotation about x. */
  lemma ToAngleAxisIdentity()
    ensures ToAngleAxis(Identity) == AngleAxis(0.0, FallbackAxis)
  {
    NormalizeUnit(Identity);
  }

  /** For a unit quaternion with a non-zero vector part, the axis is that
      vector part, normalised. */
  lemma ToAngleAxisOfUnit(q: Quat)
    requires IsUnit(q) && Length2(VecPart(q)) > 0.0
    ensures ToAngleAxis(q).axis == Vector.Normalize(VecPart(q))
    ensures ToAngleAxis(q).angle >= 0.0
  {
    NormalizeUnit(q);
    assert q.w * q.w <= 1.0;
  }

  /** Conjugating a pure quaternion by any quaternion gives a pure one. */
  lemma SandwichPure(q: Quat, v: Vec3)
    ensures Mult(Mult(q, Pure(v)), Conjugate(q)).w == 0.0
  {
    var qp := Mult(q, Pure(v));
    MultComponents(q, Pure(v));
    MultComponents(qp, Conjugate(q));
    SandwichScalar(q.x, q.y, q.z, q.w, v.x, v.y, v.z, qp.x, qp.y, qp.z, qp.w);
  }

  lemma SandwichScalar(qx: real, qy: real, qz: real, qw: real,
                       vx: real, vy: real, vz: real,
                       px: real, py: real, pz: real, pw: real)
    requires px == qx * 0.0 + qw * vx + qy * vz - qz * vy
    requires py == qy * 0.0 + qw * vy + qz * vx - qx * vz
    requires pz == qz * 0.0 + qw * vz + qx * vy - qy * vx
    requires pw == qw * 0.0 - qx * vx - qy * vy - qz * vz
    ensures pw * qw - px * -qx - py * -qy - pz * -qz == 0.0
  {
  }

  /** Rotating by `q` and then by its conjugate brings a point back, for a
      unit `q`. */
  lemma RotatePointRoundTrip(q: Quat, v: Vec3)
    requires IsUnit(q)
    ensures RotatePoint(Conjugate(q), RotatePoint(q, v)) == v
  {
    var cq := Conjugate(q);
    var p := Pure(v);
    var s := Mult(Mult(q, p), cq);
    SandwichPure(q, v);
    assert Pure(RotatePoint(q, v)) == s;
    ConjugateInvolution(q);
    MultConjugate(q);
    assert Mult(q, cq) == Identity && Mult(cq, q) == Identity;
    MultAssociative(cq, Mult(q, p), cq);
    MultAssociative(cq, q, p);
    MultIdentity(p);
    assert Mult(cq, s) == Mult(p, cq);
    MultAssociative(p, cq, q);
    assert Mult(Mult(cq, s), q) == p;
  }
}
