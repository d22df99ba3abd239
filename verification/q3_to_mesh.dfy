/** The Quake 3 (MD3) converter of Q3ModelToMesh.cpp.  An MD3 mesh stores
    its vertices frame after frame, `numVertices` per frame; each vertex is
    a position in 1/64 units and a normal packed into two bytes. */
module Q3ToMesh {
  import opened RealMath
  import opened Vector
  import opened OgreMesh
  import opened MorphTrack

  /** `MD3Triangle`: three vertex indices. */
  type Md3Triangle = IndexTriangle

  /** `MD3Vertex`: a position of three shorts and a packed normal short. */
  datatype Md3Vertex = Md3Vertex(x: int, y: int, z: int, normal: int)

  /** An `MD3Mesh`: its triangles and the vertices of all its frames. */
  datatype Md3Mesh = Md3Mesh(triangles: seq<Md3Triangle>, numFrames: nat, numVertices: nat,
                             vertices: seq<Md3Vertex>)

  /** The vertex array holds exactly one block of `numVertices` per frame. */
  predicate MeshWellFormed(mesh: Md3Mesh) {
    |mesh.vertices| == mesh.numFrames * mesh.numVertices
  }

  /** The vertices of one frame, as `&mesh.vertices[frame * numVertices]`
      addresses them.  No frame number is clamped, so the frame must exist. */
  function FrameSlice(mesh: Md3Mesh, frame: int): (verts: seq<Md3Vertex>)
    requires MeshWellFormed(mesh) && 0 <= frame < mesh.numFrames
    ensures |verts| == mesh.numVertices
    ensures forall k :: 0 <= k < mesh.numVertices ==>
      frame * mesh.numVertices + k < |mesh.vertices| && verts[k] == mesh.vertices[frame * mesh.numVertices + k]
  {
    SliceFits(mesh.numFrames, mesh.numVertices, frame);
    mesh.vertices[frame * mesh.numVertices .. frame * mesh.numVertices + mesh.numVertices]
  }

  /** Frame `frame`'s block ends no later than the last frame's. */
  lemma SliceFits(numFrames: nat, n: nat, frame: int)
    requires 0 <= frame < numFrames
    ensures 0 <= frame * n && frame * n + n <= numFrames * n
  {
    NextBlock(frame, n);
    MulMonotone(frame + 1, numFrames, n);
  }

  lemma NextBlock(f: int, n: int)
    ensures f * n + n == (f + 1) * n
  {
  }

  lemma MulMonotone(a: int, b: int, n: nat)
    requires a <= b
    ensures a * n <= b * n
  {
    assert b * n - a * n == (b - a) * n;
  }

  /** The frames' blocks, one after the other. */
  function Frames(mesh: Md3Mesh, count: nat): (verts: seq<Md3Vertex>)
    requires MeshWellFormed(mesh) && count <= mesh.numFrames
  {
    if count == 0 then [] else Frames(mesh, count - 1) + FrameSlice(mesh, count - 1)
  }

  /** The blocks of the first `count` frames are the start of the vertex
      array, so the slices tile it: every vertex belongs to exactly one
      frame. */
  lemma {:induction false} FramesTile(mesh: Md3Mesh, count: nat)
    requires MeshWellFormed(mesh) && count <= mesh.numFrames
    ensures count * mesh.numVertices <= |mesh.vertices|
    ensures Frames(mesh, count) == mesh.vertices[..count * mesh.numVertices]
  {
    var n := mesh.numVertices;
    MulMonotone(count, mesh.numFrames, n);
    if count > 0 {
      FramesTile(mesh, count - 1);
      var prev, slice := Frames(mesh, count - 1), FrameSlice(mesh, count - 1);
      assert Frames(mesh, count) == prev + slice;
      var start, end := (count - 1) * n, count * n;
      BlockStart(count - 1, n);
      ConcatBlocks(mesh.vertices, start, end, prev, slice);
    }
  }

  lemma BlockStart(f: nat, n: nat)
    ensures 0 <= f * n && f * n + n == (f + 1) * n
  {
  }

  /** Two adjacent pieces of a sequence make up the prefix up to the end
      of the second. */
  lemma ConcatBlocks<T>(s: seq<T>, a: int, b: int, x: seq<T>, y: seq<T>)
    requires 0 <= a <= b <= |s| && x == s[..a] && y == s[a..b]
    ensures x + y == s[..b]
  {
  }

  /** Two different frames never share a vertex slot. */
  lemma SlicesDisjoint(n: nat, f1: nat, k1: nat, f2: nat, k2: nat)
    requires k1 < n && k2 < n
    requires f1 * n + k1 == f2 * n + k2
    ensures f1 == f2 && k1 == k2
  {
    if f1 < f2 {
      MulMonotone(f1 + 1, f2, n);
      NextBlock(f1, n);
    } else if f2 < f1 {
      MulMonotone(f2 + 1, f1, n);
      NextBlock(f2, n);
    }
  }

  /** `MD3_SCALE`: positions are stored in 1/64 units. */
  const Md3Scale: real := 0.015625

  /** `convertPosition`, before the change of coordinate system: each short
      times `MD3_SCALE`. */
  function ConvertPosition(v: Md3Vertex): (p: Vec3)
    ensures p.x * 64.0 == v.x as real && p.y * 64.0 == v.y as real && p.z * 64.0 == v.z as real
  {
    Vec3(v.x as real * Md3Scale, v.y as real * Md3Scale, v.z as real * Md3Scale)
  }

  predicate IsShort(n: int) {
    -32768 <= n < 32768
  }

  /** Scaling is monotone and keeps shorts within 512 units of the origin,
      on a grid of 1/64. */
  lemma ConvertPositionRange(v: Md3Vertex, w: Md3Vertex)
    requires IsShort(v.x) && IsShort(v.y) && IsShort(v.z)
    ensures var p := ConvertPosition(v);
      -512.0 <= p.x < 512.0 && -512.0 <= p.y < 512.0 && -512.0 <= p.z < 512.0
    ensures v.x <= w.x ==> ConvertPosition(v).x <= ConvertPosition(w).x
    ensures ConvertPosition(v) == ConvertPosition(w) <==> v.x == w.x && v.y == w.y && v.z == w.z
  {
  }

  /** The positions of one frame of a mesh (`buildVertexBuffers` for the
      reference frame, `buildKeyframe` for the others). */
  function FramePositions(mesh: Md3Mesh, frame: int): (ps: seq<Vec3>)
    requires MeshWellFormed(mesh) && 0 <= frame < mesh.numFrames
    ensures |ps| == mesh.numVertices
    ensures forall k :: 0 <= k < mesh.numVertices ==> ps[k] == ConvertPosition(FrameSlice(mesh, frame)[k])
  {
    var verts := FrameSlice(mesh, frame);
    seq(|verts|, k requires 0 <= k < |verts| => ConvertPosition(verts[k]))
  }

  /** The 16 bits of a short, as the unsigned value of its two's
      complement pattern. */
  function ShortBits(n: int): (b: nat)
    requires IsShort(n)
    ensures b < 65536 && b % 65536 == n % 65536
  {
    if n < 0 then n + 65536 else n
  }

  /** `(normal >> 8) & 0xFF`, the latitude byte: bits 8 to 15 of the
      pattern.  The arithmetic shift copies the sign bit into the high bits,
      and the mask drops them again. */
  function LatitudeByte(normal: int): (lat: nat)
    requires IsShort(normal)
    ensures lat < 256
  {
    ShortBits(normal) / 256
  }

  /** `normal & 0xFF`, the longitude byte: bits 0 to 7. */
  function LongitudeByte(normal: int): (lng: nat)
    requires IsShort(normal)
    ensures lng < 256
  {
    ShortBits(normal) % 256
  }

  /** The two bytes, read arithmetically: the latitude is the floored
      quotient by 256 taken modulo 256, the longitude the remainder, for
      negative shorts as well. */
  lemma NormalBytesArithmetic(normal: int)
    requires IsShort(normal)
    ensures LatitudeByte(normal) == (normal / 256) % 256
    ensures LongitudeByte(normal) == normal % 256
  {
    if normal < 0 {
      var q := normal / 256;
      assert normal == q * 256 + normal % 256;
      assert normal + 65536 == (q + 256) * 256 + normal % 256;
      assert (normal + 65536) / 256 == q + 256;
    }
  }

  /** The short whose pattern has `lat` in the high and `lng` in the low
      byte. */
  function PackNormal(lat: nat, lng: nat): (normal: int)
    requires lat < 256 && lng < 256
    ensures IsShort(normal)
  {
    var b := lat * 256 + lng;
    if b < 32768 then b else b - 65536
  }

  /** Packing and decoding are inverse: the two bytes identify the short
      and the short the two bytes. */
  lemma PackNormalRoundTrip(lat: nat, lng: nat, normal: int)
    requires lat < 256 && lng < 256 && IsShort(normal)
    ensures LatitudeByte(PackNormal(lat, lng)) == lat && LongitudeByte(PackNormal(lat, lng)) == lng
    ensures PackNormal(LatitudeByte(normal), LongitudeByte(normal)) == normal
  {
    var b := lat * 256 + lng;
    assert ShortBits(PackNormal(lat, lng)) == b;
    var bits := ShortBits(normal);
    assert bits == (bits / 256) * 256 + bits % 256;
  }

  /** `6.2831853`, the code's value of 2 pi. */
  const TwoPi: real := 6.2831853

  /** A byte as an angle: `byte / 255.0 * 6.2831853`. */
  function ByteAngle(b: nat): (a: real)
    requires b < 256
    ensures 0.0 <= a <= TwoPi
    ensures b == 0 ==> a == 0.0
    ensures b == 255 ==> a == TwoPi
  {
    ByteFraction(b);
    b as real / 255.0 * TwoPi
  }

  lemma ByteFraction(b: nat)
    requires b < 256
    ensures 0.0 <= b as real / 255.0 <= 1.0
  {
  }

  /** `convertNormal`, before the change of coordinate system: the
      direction at latitude angle `lat` and longitude angle `lng`. */
  ghost function ConvertNormal(normal: int): (n: Vec3)
    requires IsShort(normal)
  {
    var lat := ByteAngle(LatitudeByte(normal));
    var lng := ByteAngle(LongitudeByte(normal));
    Vec3(Cos(lat) * Sin(lng), Sin(lat) * Sin(lng), Cos(lng))
  }

  /** The decoded normal has unit length, given the Pythagorean identity at
      both angles. */
  lemma ConvertNormalUnit(normal: int)
    requires IsShort(normal)
    requires Pythagorean(ByteAngle(LatitudeByte(normal)))
    requires Pythagorean(ByteAngle(LongitudeByte(normal)))
    ensures Length2(ConvertNormal(normal)) == 1.0
  {
    var lat := ByteAngle(LatitudeByte(normal));
    var lng := ByteAngle(LongitudeByte(normal));
    SphericalUnit(Cos(lat), Sin(lat), Cos(lng), Sin(lng));
  }

  lemma SphericalUnit(cl: real, sl: real, cg: real, sg: real)
    requires sl * sl + cl * cl == 1.0 && sg * sg + cg * cg == 1.0
    ensures (cl * sg) * (cl * sg) + (sl * sg) * (sl * sg) + cg * cg == 1.0
  {
    assert (cl * sg) * (cl * sg) + (sl * sg) * (sl * sg) == (cl * cl + sl * sl) * (sg * sg);
  }

  /** One morph track of `buildAnimation`: the submesh it animates and its
      keyframes. */
  datatype MeshTrack = MeshTrack(index: nat, keyframes: seq<MorphKeyframe>)

  /** `buildAnimation`: one track per mesh, in mesh order, each built by
      `buildTrack` over the same frames and times. */
  method BuildAnimation(numMeshes: nat, anim: AnimationDef) returns (tracks: seq<MeshTrack>)
    requires anim.fps != 0
    ensures |tracks| == numMeshes
    ensures forall m :: 0 <= m < numMeshes ==>
      tracks[m].index == m &&
      |tracks[m].keyframes| == (if anim.numFrames > 0 then anim.numFrames else 0) &&
      forall i :: 0 <= i < |tracks[m].keyframes| ==>
        tracks[m].keyframes[i].frame == anim.startFrame + i &&
        tracks[m].keyframes[i].time == i as real / anim.fps as real
  {
    tracks := [];
    var m := 0;
    while m < numMeshes
      invariant 0 <= m <= numMeshes
      invariant |tracks| == m
      invariant forall k :: 0 <= k < m ==>
        tracks[k].index == k &&
        |tracks[k].keyframes| == (if anim.numFrames > 0 then anim.numFrames else 0) &&
        forall i :: 0 <= i < |tracks[k].keyframes| ==>
          tracks[k].keyframes[i].frame == anim.startFrame + i &&
          tracks[k].keyframes[i].time == i as real / anim.fps as real
    {
      var keys := BuildMorphTrack(anim.startFrame, anim.numFrames, anim.fps);
      tracks := tracks + [MeshTrack(m, keys)];
      m := m + 1;
    }
  }

  /** Every keyframe of every track reads a frame slice that exists
      exactly when the animation's frames lie inside the mesh's. */
  lemma TrackFramesInRange(tracks: seq<MeshTrack>, anim: AnimationDef, mesh: Md3Mesh, m: nat)
    requires m < |tracks| && anim.numFrames > 0
    requires |tracks[m].keyframes| == anim.numFrames
    requires forall i :: 0 <= i < |tracks[m].keyframes| ==> tracks[m].keyframes[i].frame == anim.startFrame + i
    ensures (forall i :: 0 <= i < anim.numFrames ==> 0 <= tracks[m].keyframes[i].frame < mesh.numFrames) <==>
      0 <= anim.startFrame && anim.startFrame + anim.numFrames <= mesh.numFrames
  {
    MorphTrackFramesInRange(tracks[m].keyframes, anim.startFrame, anim.numFrames, mesh.numFrames);
  }
}
