/** The faces and vertex normals `buildSubMesh` writes for an MD5 mesh
    (MD5ModelToMesh.cpp): every triangle with its winding flipped, and per
    vertex the normalised sum of the normals of the faces that use it. */
module Md5Normals {
  import opened RealMath
  import opened Vector
  import opened Md5Model
  import opened OgreMesh

  /** The normal of a triangle before normalisation: the cross product of
      the edges to the third and to the second corner. */
  function FaceNormal(v0: Vec3, v1: Vec3, v2: Vec3): (n: Vec3)
    ensures Dot(n, Subtract(v1, v0)) == 0.0 && Dot(n, Subtract(v2, v0)) == 0.0
  {
    Cross(Subtract(v2, v0), Subtract(v1, v0))
  }

  /** Reading the corners in the opposite order turns the normal round,
      and a triangle with two equal corners has none. */
  lemma FaceNormalWinding(v0: Vec3, v1: Vec3, v2: Vec3)
    ensures FaceNormal(v0, v2, v1) == Negate(FaceNormal(v0, v1, v2))
    ensures v1 == v2 ==> FaceNormal(v0, v1, v2) == Zero
  {
    CrossAntiCommutative(Subtract(v2, v0), Subtract(v1, v0));
    CrossSelfIsZero(Subtract(v1, v0));
  }

  /** The face written for a triangle has the opposite normal to the
      triangle read in its file order. */
  lemma BuildFacesReverseNormals(positions: seq<Vec3>, tris: seq<Triangle>, k: nat)
    requires k < |tris| && TrianglesInRange(tris, |positions|)
    ensures var f := BuildFaces(tris)[k];
      var t := tris[k];
      FaceNormal(positions[f.v1], positions[f.v2], positions[f.v3]) ==
        Negate(FaceNormal(positions[t.i0], positions[t.i1], positions[t.i2]))
  {
    var t := tris[k];
    FaceNormalWinding(positions[t.i0], positions[t.i1], positions[t.i2]);
  }

  /** Every corner of every triangle indexes a vertex. */
  predicate TrianglesInRange(tris: seq<Triangle>, numVerts: int) {
    forall k :: 0 <= k < |tris| ==>
      0 <= tris[k].i0 < numVerts && 0 <= tris[k].i1 < numVerts && 0 <= tris[k].i2 < numVerts
  }

  ghost function TriangleNormal(positions: seq<Vec3>, t: Triangle): Vec3
    requires 0 <= t.i0 < |positions| && 0 <= t.i1 < |positions| && 0 <= t.i2 < |positions|
  {
    FaceNormal(positions[t.i0], positions[t.i1], positions[t.i2])
  }

  /** How many corners of `t` are vertex `v`. */
  function Corners(t: Triangle, v: int): (n: nat)
    ensures n <= 3
    ensures n == 0 <==> t.i0 != v && t.i1 != v && t.i2 != v
  {
    (if t.i0 == v then 1 else 0) + (if t.i1 == v then 1 else 0) + (if t.i2 == v then 1 else 0)
  }

  /** The accumulated normal of vertex `v` over the first `k` triangles:
      each triangle's normal counted once for each of its corners at `v`. */
  ghost function NormalSum(positions: seq<Vec3>, tris: seq<Triangle>, k: nat, v: int): Vec3
    requires k <= |tris| && TrianglesInRange(tris, |positions|)
  {
    if k == 0 then Zero
    else Add(NormalSum(positions, tris, k - 1, v),
             Scale(TriangleNormal(positions, tris[k - 1]), Corners(tris[k - 1], v) as real))
  }

  /** `normals` holds, for every vertex, the sum over the first `k`
      triangles. */
  ghost predicate SumsUpTo(positions: seq<Vec3>, tris: seq<Triangle>, k: nat, normals: seq<Vec3>)
    requires k <= |tris| && TrianglesInRange(tris, |positions|)
  {
    |normals| == |positions| &&
    forall v :: 0 <= v < |positions| ==> normals[v] == NormalSum(positions, tris, k, v)
  }

  /** The first loop of `generateNormals`: starting from zero vectors,
      each triangle's normal is added to the normal of each of its three
      corners in turn. */
  method AccumulateNormals(positions: seq<Vec3>, tris: seq<Triangle>) returns (normals: seq<Vec3>)
    requires TrianglesInRange(tris, |positions|)
    ensures |normals| == |positions|
    ensures forall v :: 0 <= v < |positions| ==> normals[v] == NormalSum(positions, tris, |tris|, v)
  {
    normals := Zeros(|positions|);
    NoTrianglesYet(positions, tris, normals);
    var k := 0;
    while k < |tris|
      invariant 0 <= k <= |tris|
      invariant SumsUpTo(positions, tris, k, normals)
    {
      normals := AddTriangle(positions, tris, k, normals);
      k := k + 1;
    }
  }

  /** `n` zero vectors. */
  function Zeros(n: nat): (r: seq<Vec3>)
    ensures |r| == n && forall v :: 0 <= v < n ==> r[v] == Zero
  {
    seq(n, v => Zero)
  }

  /** Before any triangle is visited every sum is zero. */
  lemma NoTrianglesYet(positions: seq<Vec3>, tris: seq<Triangle>, normals: seq<Vec3>)
    requires TrianglesInRange(tris, |positions|)
    requires normals == Zeros(|positions|)
    ensures SumsUpTo(positions, tris, 0, normals)
  {
  }

  /** One pass of the outer loop: the normal of triangle `k` added at its
      corners extends the sums by one triangle. */
  method AddTriangle(positions: seq<Vec3>, tris: seq<Triangle>, k: nat, normals: seq<Vec3>)
    returns (after: seq<Vec3>)
    requires k < |tris| && TrianglesInRange(tris, |positions|)
    requires SumsUpTo(positions, tris, k, normals)
    ensures SumsUpTo(positions, tris, k + 1, after)
  {
    var t := tris[k];
    var faceNormal := FaceNormal(positions[t.i0], positions[t.i1], positions[t.i2]);
    after := AddToCorners(normals, t, faceNormal);
    AccumulateStep(positions, tris, k, normals, after);
  }

  /** The sums over `k + 1` triangles are those over `k` plus triangle
      `k`'s normal at its corners. */
  lemma AccumulateStep(positions: seq<Vec3>, tris: seq<Triangle>, k: nat,
                       before: seq<Vec3>, after: seq<Vec3>)
    requires k < |tris| && TrianglesInRange(tris, |positions|)
    requires SumsUpTo(positions, tris, k, before)
    requires after == AddToCorners(before, tris[k], TriangleNormal(positions, tris[k]))
    ensures SumsUpTo(positions, tris, k + 1, after)
  {
  }

  /** The inner loop of the first pass: `n` is added to the normal of
      corner 0, then of corner 1, then of corner 2, so a vertex at several
      corners receives it several times. */
  function AddToCorners(normals: seq<Vec3>, t: Triangle, n: Vec3): (r: seq<Vec3>)
    requires 0 <= t.i0 < |normals| && 0 <= t.i1 < |normals| && 0 <= t.i2 < |normals|
    ensures |r| == |normals|
    ensures forall v :: 0 <= v < |normals| ==> r[v] == Add(normals[v], Scale(n, Corners(t, v) as real))
  {
    var a := normals[t.i0 := Add(normals[t.i0], n)];
    var b := a[t.i1 := Add(a[t.i1], n)];
    var c := b[t.i2 := Add(b[t.i2], n)];
    forall v | 0 <= v < |normals|
      ensures c[v] == Add(normals[v], Scale(n, Corners(t, v) as real))
    {
      CornerUpdates(normals[v], n, t, v);
    }
    c
  }

  /** Adding `n` once for each corner at `v` adds `n` scaled by the number
      of such corners. */
  lemma CornerUpdates(start: Vec3, n: Vec3, t: Triangle, v: int)
    ensures var a := if t.i0 == v then Add(start, n) else start;
      var b := if t.i1 == v then Add(a, n) else a;
      var c := if t.i2 == v then Add(b, n) else b;
      c == Add(start, Scale(n, Corners(t, v) as real))
  {
  }

  /** A vertex that no triangle uses keeps a zero normal; it is the case
      in which the normalisation that follows divides by zero. */
  lemma {:induction false} UnusedVertexHasNoNormal(positions: seq<Vec3>, tris: seq<Triangle>, k: nat, v: int)
    requires k <= |tris| && TrianglesInRange(tris, |positions|)
    requires forall j :: 0 <= j < k ==> Corners(tris[j], v) == 0
    ensures NormalSum(positions, tris, k, v) == Zero
  {
    if k > 0 {
      UnusedVertexHasNoNormal(positions, tris, k - 1, v);
    }
  }

  /** A vertex used by exactly one triangle, at one corner, gets that
      triangle's normal. */
  lemma {:induction false} SingleUseVertex(positions: seq<Vec3>, tris: seq<Triangle>, k: nat, v: int, j: nat)
    requires k <= |tris| && TrianglesInRange(tris, |positions|)
    requires j < k && Corners(tris[j], v) == 1
    requires forall m :: 0 <= m < k && m != j ==> Corners(tris[m], v) == 0
    ensures NormalSum(positions, tris, k, v) == TriangleNormal(positions, tris[j])
  {
    if k - 1 == j {
      UnusedVertexHasNoNormal(positions, tris, k - 1, v);
    } else {
      SingleUseVertex(positions, tris, k - 1, v, j);
    }
  }

  /** `generateNormals`: the accumulated normals, each scaled to unit
      length.  `vec_normalize` has no guard against a zero vector, so
      every vertex must be used by a non-degenerate face. */
  ghost function GenerateNormals(positions: seq<Vec3>, tris: seq<Triangle>): (normals: seq<Vec3>)
    requires TrianglesInRange(tris, |positions|)
    requires forall v :: 0 <= v < |positions| ==> Length2(NormalSum(positions, tris, |tris|, v)) > 0.0
    ensures |normals| == |positions|
    ensures forall v :: 0 <= v < |positions| ==>
      var sum := NormalSum(positions, tris, |tris|, v);
      Cross(normals[v], sum) == Zero && Dot(normals[v], sum) > 0.0 &&
      (HasRoot(Length2(sum)) ==> Length2(normals[v]) == 1.0)
  {
    seq(|positions|, v requires 0 <= v < |positions| => Vector.Normalize(NormalSum(positions, tris, |tris|, v)))
  }
}
