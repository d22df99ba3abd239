/** The coordinate change of Quake.cpp: Quake models are z-up, Ogre is
    y-up. */
module Quake {
  import opened Vector
  import opened Quaternion
  import opened QuatAlgebra

  /** `Quake::convertVector`: (x, y, z) becomes (x, z, -y), a quarter turn
      about the x axis, so x and the length are kept. */
  function ConvertVector(v: Vec3): (r: Vec3)
    ensures r.x == v.x
    ensures Length2(r) == Length2(v)
    ensures Dot(r, v) == v.x * v.x
  {
    Vec3(v.x, v.z, -v.y)
  }

  /** A quarter turn undone: the inverse of `ConvertVector`. */
  function UnconvertVector(v: Vec3): (r: Vec3)
  {
    Vec3(v.x, -v.z, v.y)
  }

  lemma ConvertVectorRoundTrip(v: Vec3)
    ensures UnconvertVector(ConvertVector(v)) == v
    ensures ConvertVector(UnconvertVector(v)) == v
  {
  }

  /** Four quarter turns are the identity; two are a half turn. */
  lemma ConvertVectorFourTimes(v: Vec3)
    ensures ConvertVector(ConvertVector(v)) == Vec3(v.x, -v.y, -v.z)
    ensures ConvertVector(ConvertVector(ConvertVector(ConvertVector(v)))) == v
  {
  }

  /** The conversion commutes with vector addition and with the cross
      product, as a rotation does. */
  lemma ConvertVectorLinear(a: Vec3, b: Vec3)
    ensures ConvertVector(Add(a, b)) == Add(ConvertVector(a), ConvertVector(b))
    ensures ConvertVector(Cross(a, b)) == Cross(ConvertVector(a), ConvertVector(b))
  {
  }

  /** The fixed pre-rotation of `Quake::convertQuaternion`, written with the
      same six-digit constants (so its norm is only close to 1). */
  const Trsf := Quat(0.707107, 0.0, 0.0, -0.707107)

  /** `Quake::convertQuaternion`: replaces `q` by `Trsf * q`, scaling the
      norm by that of `Trsf`. */
  function ConvertQuaternion(q: Quat): (r: Quat)
    ensures Norm2(r) == Norm2(Trsf) * Norm2(q)
  {
    Norm2Mult(Trsf, q);
    Mult(Trsf, q)
  }

  /** Because the conversion is a pre-multiplication, converting a product
      converts only its left factor. */
  lemma ConvertProduct(a: Quat, b: Quat)
    ensures ConvertQuaternion(Mult(a, b)) == Mult(ConvertQuaternion(a), b)
  {
    MultAssociative(Trsf, a, b);
  }

  /** Converting the identity orientation yields the pre-rotation itself. */
  lemma ConvertIdentity()
    ensures ConvertQuaternion(Identity) == Trsf
  {
    MultIdentity(Trsf);
  }
}
