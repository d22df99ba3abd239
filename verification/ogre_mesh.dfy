/** The records the converters emit into Ogre's mesh and skeleton XML
    formats, as values instead of writer calls. */
module OgreMesh {
  import opened Vector
  import opened Quaternion

  /** A `face` element: three vertex indices in the order written. */
  datatype Face = Face(v1: int, v2: int, v3: int)

  /** The winding flip every converter applies: the second and third corners
      swap places, turning the Quake winding into Ogre's. */
  function FlipWinding(i0: int, i1: int, i2: int): (f: Face)
    ensures f.v1 == i0 && multiset{f.v2, f.v3} == multiset{i1, i2}
    ensures i1 != i2 ==> f != Face(i0, i1, i2)
  {
    Face(i0, i2, i1)
  }

  /** Flipping a written face again restores the original corner order. */
  lemma FlipWindingInvolution(i0: int, i1: int, i2: int)
    ensures var f := FlipWinding(i0, i1, i2);
      FlipWinding(f.v1, f.v2, f.v3) == Face(i0, i1, i2)
  {
  }

  /** A triangle of a source model: three vertex indices in file order. */
  datatype IndexTriangle = IndexTriangle(i0: int, i1: int, i2: int)

  /** The faces of a submesh, each triangle with its winding flipped
      (`buildFace` of the MD5 and MD3 converters). */
  function BuildFaces(tris: seq<IndexTriangle>): (faces: seq<Face>)
    ensures |faces| == |tris|
    ensures forall k :: 0 <= k < |tris| ==>
      faces[k].v1 == tris[k].i0 && faces[k].v2 == tris[k].i2 && faces[k].v3 == tris[k].i1
  {
    seq(|tris|, k requires 0 <= k < |tris| => FlipWinding(tris[k].i0, tris[k].i1, tris[k].i2))
  }

  /** A written face read back as a triangle. */
  function FaceTriangle(f: Face): IndexTriangle {
    IndexTriangle(f.v1, f.v2, f.v3)
  }

  /** Writing the written faces again gives the triangles back in their
      original corner order. */
  lemma BuildFacesTwice(tris: seq<IndexTriangle>)
    ensures var flipped := seq(|tris|, k requires 0 <= k < |tris| => FaceTriangle(BuildFaces(tris)[k]));
      |BuildFaces(flipped)| == |tris| &&
      forall k :: 0 <= k < |tris| ==> BuildFaces(flipped)[k] == Face(tris[k].i0, tris[k].i1, tris[k].i2)
  {
    var flipped := seq(|tris|, k requires 0 <= k < |tris| => FaceTriangle(BuildFaces(tris)[k]));
    forall k | 0 <= k < |tris|
      ensures BuildFaces(flipped)[k] == Face(tris[k].i0, tris[k].i1, tris[k].i2)
    {
      FlipWindingInvolution(tris[k].i0, tris[k].i1, tris[k].i2);
    }
  }

  /** A `vertexboneassignment` element. */
  datatype BoneAssignment = BoneAssignment(vertexIndex: int, boneIndex: int, weight: real)

  /** A `bone` element: its position and its rotation as angle and axis. */
  datatype Bone = Bone(id: int, name: string, pos: Vec3, rotation: AngleAxis)

  /** A `boneparent` element. */
  datatype BoneParent = BoneParent(bone: string, parent: string)

  /** A `keyframe` element of a skeletal track: its time, translation, and
      rotation as the angle and axis `buildKeyFrame` writes. */
  datatype Keyframe = Keyframe(time: real, translate: Vec3, rotation: AngleAxis)

  /** A `track` element: the keyframes of one bone. */
  datatype Track = Track(bone: string, keyframes: seq<Keyframe>)
}
