/** Three-component vectors (`vec3_t`) and the operations of vector.cpp. */
module Vector {
  import opened RealMath

  datatype Vec3 = Vec3(x: real, y: real, z: real)

  const Zero := Vec3(0.0, 0.0, 0.0)

  /** `vec_add`: the zero vector is its identity on either side. */
  function Add(a: Vec3, b: Vec3): (r: Vec3)
    ensures b == Zero ==> r == a
    ensures a == Zero ==> r == b
  {
    Vec3(a.x + b.x, a.y + b.y, a.z + b.z)
  }

  /** `vec_subtract`: undoes `Add`. */
  function Subtract(a: Vec3, b: Vec3): (r: Vec3)
    ensures Add(r, b) == a
  {
    Vec3(a.x - b.x, a.y - b.y, a.z - b.z)
  }

  /** `vec_scale`: 1 is its identity and 0 annihilates. */
  function Scale(v: Vec3, f: real): (r: Vec3)
    ensures f == 1.0 ==> r == v
    ensures f == 0.0 ==> r == Zero
  {
    Vec3(v.x * f, v.y * f, v.z * f)
  }

  function Negate(v: Vec3): Vec3 {
    Vec3(-v.x, -v.y, -v.z)
  }

  function Dot(a: Vec3, b: Vec3): real {
    a.x * b.x + a.y * b.y + a.z * b.z
  }

  function Length2(v: Vec3): real {
    Dot(v, v)
  }

  /** `vec_crossProduct`: the result is orthogonal to both arguments. */
  function Cross(a: Vec3, b: Vec3): (r: Vec3)
    ensures Dot(r, a) == 0.0 && Dot(r, b) == 0.0
  {
    Vec3(a.y * b.z - b.y * a.z,
         a.z * b.x - b.z * a.x,
         a.x * b.y - b.x * a.y)
  }

  /** `vec_normalize` divides by the length with no guard, so a zero vector
      is outside its domain.  The result is parallel to `v`, points the same
      way, and has unit length. */
  ghost function Normalize(v: Vec3): (r: Vec3)
    requires Length2(v) > 0.0
    ensures Cross(r, v) == Zero
    ensures Dot(r, v) > 0.0
    ensures HasRoot(Length2(v)) ==> Length2(r) == 1.0
  {
    var len := Sqrt(Length2(v));
    NormalizeFacts(v, len);
    Vec3(v.x / len, v.y / len, v.z / len)
  }

  lemma NormalizeFacts(v: Vec3, len: real)
    requires Length2(v) > 0.0 && len == Sqrt(Length2(v))
    ensures var r := Vec3(v.x / len, v.y / len, v.z / len);
      && Cross(r, v) == Zero
      && Dot(r, v) > 0.0
      && (HasRoot(Length2(v)) ==> Length2(r) == 1.0)
  {
    var r := Vec3(v.x / len, v.y / len, v.z / len);
    assert r == Scale(v, 1.0 / len);
    ScaleLength2(v, 1.0 / len);
    ScaleDot(v, 1.0 / len);
    ScaleCross(v, 1.0 / len);
    if HasRoot(Length2(v)) {
      InverseSquare(len, Length2(v));
    }
  }

  lemma InverseSquare(len: real, l2: real)
    requires len > 0.0 && len * len == l2
    ensures (1.0 / len) * (1.0 / len) * l2 == 1.0
  {
    calc {
      (1.0 / len) * (1.0 / len) * l2;
      (1.0 / len) * (1.0 / len) * (len * len);
      ((1.0 / len) * len) * ((1.0 / len) * len);
      1.0;
    }
  }

  lemma ScaleLength2(v: Vec3, k: real)
    ensures Length2(Scale(v, k)) == k * k * Length2(v)
  {
  }

  lemma ScaleDot(v: Vec3, k: real)
    ensures Dot(Scale(v, k), v) == k * Length2(v)
  {
  }

  lemma ScaleCross(v: Vec3, k: real)
    ensures Cross(Scale(v, k), v) == Zero
  {
  }

  /** The sum distributes over the dot product. */
  lemma AddDot(a: Vec3, b: Vec3, c: Vec3)
    ensures Dot(Add(a, b), c) == Dot(a, c) + Dot(b, c)
  {
  }

  /** Only the zero vector has squared length 0. */
  lemma Length2Zero(v: Vec3)
    ensures Length2(v) >= 0.0
    ensures Length2(v) == 0.0 <==> v == Zero
  {
    SquareSign(v.x);
    SquareSign(v.y);
    SquareSign(v.z);
  }

  /** A non-zero rescaling of a vector is zero only when the vector is. */
  lemma ScaleNonZero(v: Vec3, m: real)
    requires m != 0.0
    ensures Scale(v, m) == Zero <==> v == Zero
  {
    if v != Zero {
      if v.x != 0.0 {
        ProductNonZero(v.x, m);
      } else if v.y != 0.0 {
        ProductNonZero(v.y, m);
      } else {
        ProductNonZero(v.z, m);
      }
    }
  }

  /** Being parallel to `v` and pointing its way survive a positive
      rescaling of `v`. */
  lemma SameDirectionScaled(a: Vec3, v: Vec3, m: real)
    requires m > 0.0
    requires Cross(a, v) == Zero && Dot(a, v) > 0.0
    ensures Cross(a, Scale(v, m)) == Zero && Dot(a, Scale(v, m)) > 0.0
  {
    assert Cross(a, Scale(v, m)) == Scale(Cross(a, v), m);
    assert Dot(a, Scale(v, m)) == m * Dot(a, v);
  }

  lemma AddSubtractInverse(a: Vec3, b: Vec3)
    ensures Subtract(Add(a, b), b) == a
  {
  }

  lemma CrossAntiCommutative(a: Vec3, b: Vec3)
    ensures Cross(a, b) == Negate(Cross(b, a))
  {
  }

  lemma CrossSelfIsZero(a: Vec3)
    ensures Cross(a, a) == Zero
  {
  }

  /** Scaling distributes over a sum of factors. */
  lemma ScaleAdd(v: Vec3, a: real, b: real)
    ensures Add(Scale(v, a), Scale(v, b)) == Scale(v, a + b)
  {
  }
}
