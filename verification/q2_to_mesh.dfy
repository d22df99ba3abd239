/** The Quake 2 (MD2) converter of Q2ModelToMesh.cpp.  An MD2 triangle
    indexes its corners' positions and texture coordinates separately; Ogre
    needs one index per corner, so every distinct (position, texture
    coordinate) pair becomes one new vertex. */
module Q2ToMesh {
  import opened Vector
  import opened OgreMesh
  import opened MorphTrack

  /** `MD2Triangle`: per corner a vertex index and a texture-coordinate
      index. */
  datatype Md2Triangle = Md2Triangle(v0: int, v1: int, v2: int, t0: int, t1: int, t2: int)

  /** `NewVertex`: a (vertex index, texture-coordinate index) pair. */
  datatype NewVertex = NewVertex(vert: int, tex: int)

  /** `NewTriangle`: three indices into the new vertex list. */
  datatype NewTriangle = NewTriangle(indices: seq<nat>)

  /** The pair at corner `j` of an MD2 triangle. */
  function Corner(t: Md2Triangle, j: nat): NewVertex
    requires j < 3
  {
    if j == 0 then NewVertex(t.v0, t.t0)
    else if j == 1 then NewVertex(t.v1, t.t1)
    else NewVertex(t.v2, t.t2)
  }

  /** The pairs of all corners, triangle by triangle, in the order the
      conversion visits them. */
  function AllCorners(tris: seq<Md2Triangle>): (cs: seq<NewVertex>)
    ensures |cs| == 3 * |tris|
    ensures forall t, j :: 0 <= t < |tris| && 0 <= j < 3 ==> cs[3 * t + j] == Corner(tris[t], j)
  {
    if tris == [] then []
    else
      var n := |tris| - 1;
      AllCorners(tris[..n]) + [Corner(tris[n], 0), Corner(tris[n], 1), Corner(tris[n], 2)]
  }

  /** The distinct elements of `s` in order of first appearance. */
  function FirstAppearances<T(==,!new)>(s: seq<T>): (d: seq<T>)
    ensures |d| <= |s|
    ensures forall x :: x in d <==> x in s
    ensures forall a, b :: 0 <= a < b < |d| ==> d[a] != d[b]
  {
    if s == [] then []
    else
      var prev := FirstAppearances(s[..|s| - 1]);
      var x := s[|s| - 1];
      assert s == s[..|s| - 1] + [x];
      if x in prev then prev else prev + [x]
  }

  /** Extending the input by one element appends it to the distinct
      elements when it is new, and changes nothing otherwise. */
  lemma FirstAppearancesStep<T(!new)>(s: seq<T>, p: nat)
    requires p < |s|
    ensures FirstAppearances(s[..p + 1]) ==
      if s[p] in FirstAppearances(s[..p]) then FirstAppearances(s[..p]) else FirstAppearances(s[..p]) + [s[p]]
  {
    assert s[..p + 1][..p] == s[..p];
  }

  /** The map of `restructureVertices` sends every new vertex to its index
      and knows all of them. */
  predicate IndexMapValid(m: map<NewVertex, nat>, verts: seq<NewVertex>) {
    (forall v :: v in m ==> m[v] < |verts| && verts[m[v]] == v) &&
    (forall k :: 0 <= k < |verts| ==> verts[k] in m)
  }

  /** A valid map knows exactly the vertices of the list. */
  lemma MapKnowsVertices(m: map<NewVertex, nat>, verts: seq<NewVertex>, v: NewVertex)
    requires IndexMapValid(m, verts)
    ensures v in m <==> v in verts
  {
    if v in verts {
      var k :| 0 <= k < |verts| && verts[k] == v;
      assert verts[k] in m;
    }
  }

  /** Giving a new vertex the next index keeps the map valid. */
  lemma InsertKeepsMapValid(m: map<NewVertex, nat>, verts: seq<NewVertex>, v: NewVertex)
    requires IndexMapValid(m, verts) && v !in m
    ensures IndexMapValid(m[v := |verts|], verts + [v])
  {
    var m', verts' := m[v := |verts|], verts + [v];
    forall k | 0 <= k < |verts'|
      ensures verts'[k] in m'
    {
      if k < |verts| {
        assert verts'[k] == verts[k];
      }
    }
  }

  /** One visit of the inner loop: a pair the map knows leaves the list
      as it is; a new pair is appended and mapped to its position. */
  lemma CornerStep(corners: seq<NewVertex>, p: nat, m: map<NewVertex, nat>, verts: seq<NewVertex>)
    requires p < |corners| && verts == FirstAppearances(corners[..p]) && IndexMapValid(m, verts)
    ensures corners[p] in m ==> verts == FirstAppearances(corners[..p + 1])
    ensures corners[p] !in m ==>
      verts + [corners[p]] == FirstAppearances(corners[..p + 1]) &&
      IndexMapValid(m[corners[p] := |verts|], verts + [corners[p]])
  {
    FirstAppearancesStep(corners, p);
    MapKnowsVertices(m, verts, corners[p]);
    if corners[p] !in m {
      InsertKeepsMapValid(m, verts, corners[p]);
    }
  }

  /** The first indices of a new triangle point at the MD2 triangle's
      pairs. */
  predicate IndicesPoint(indices: seq<nat>, t: Md2Triangle, verts: seq<NewVertex>)
    requires |indices| <= 3
  {
    forall k :: 0 <= k < |indices| ==> indices[k] < |verts| && verts[indices[k]] == Corner(t, k)
  }

  /** The next corner's index joins the indices found so far. */
  lemma IndicesPointSnoc(indices: seq<nat>, t: Md2Triangle, verts: seq<NewVertex>, index: nat)
    requires |indices| < 3 && IndicesPoint(indices, t, verts)
    requires index < |verts| && verts[index] == Corner(t, |indices|)
    ensures IndicesPoint(indices + [index], t, verts)
  {
  }

  /** The new triangle's corners point at the MD2 triangle's pairs. */
  predicate TriangleMapped(nt: NewTriangle, t: Md2Triangle, verts: seq<NewVertex>) {
    |nt.indices| == 3 && IndicesPoint(nt.indices, t, verts)
  }

  /** Appending to the vertex list keeps every index pointing where it
      did. */
  lemma AppendKeepsMapped(newTris: seq<NewTriangle>, tris: seq<Md2Triangle>, n: nat,
                          indices: seq<nat>, t: Md2Triangle, verts: seq<NewVertex>, more: seq<NewVertex>)
    requires n <= |newTris| && n <= |tris| && |indices| <= 3
    requires forall k :: 0 <= k < n ==> TriangleMapped(newTris[k], tris[k], verts)
    requires IndicesPoint(indices, t, verts)
    ensures forall k :: 0 <= k < n ==> TriangleMapped(newTris[k], tris[k], verts + more)
    ensures IndicesPoint(indices, t, verts + more)
  {
    forall k | 0 <= k < n
      ensures TriangleMapped(newTris[k], tris[k], verts + more)
    {
      assert TriangleMapped(newTris[k], tris[k], verts);
    }
  }

  /** The outer loop's step: the triangle just restructured joins the
      earlier ones, which still point where they did in the longer list. */
  lemma AppendTriangle(newTris: seq<NewTriangle>, tris: seq<Md2Triangle>, i: nat, indices: seq<nat>,
                       verts: seq<NewVertex>, verts': seq<NewVertex>)
    requires i == |newTris| && i < |tris|
    requires forall k :: 0 <= k < i ==> TriangleMapped(newTris[k], tris[k], verts)
    requires |verts| <= |verts'| && verts'[..|verts|] == verts
    requires |indices| == 3 && IndicesPoint(indices, tris[i], verts')
    ensures forall k :: 0 <= k < i + 1 ==> TriangleMapped((newTris + [NewTriangle(indices)])[k], tris[k], verts')
  {
    assert verts + verts'[|verts|..] == verts';
    AppendKeepsMapped(newTris, tris, i, [], tris[i], verts, verts'[|verts|..]);
  }

  /** `restructureVertices`: each pair gets a new index the first time it
      is met, and the same index every later time. */
  method RestructureVertices(tris: seq<Md2Triangle>) returns (newVerts: seq<NewVertex>, newTris: seq<NewTriangle>)
    ensures |newTris| == |tris| && |newVerts| <= 3 * |tris|
    ensures newVerts == FirstAppearances(AllCorners(tris))
    ensures forall t :: 0 <= t < |tris| ==> TriangleMapped(newTris[t], tris[t], newVerts)
  {
    var newIndices: map<NewVertex, nat> := map[];
    newVerts := [];
    newTris := [];
    ghost var corners := AllCorners(tris);
    var i := 0;
    while i < |tris|
      invariant 0 <= i <= |tris|
      invariant newVerts == FirstAppearances(corners[..3 * i])
      invariant IndexMapValid(newIndices, newVerts)
      invariant |newTris| == i
      invariant forall t :: 0 <= t < i ==> TriangleMapped(newTris[t], tris[t], newVerts)
    {
      var indices, indices', verts' := RestructureTriangle(tris[i], newIndices, newVerts, corners, 3 * i);
      AppendTriangle(newTris, tris, i, indices, newVerts, verts');
      newTris := newTris + [NewTriangle(indices)];
      newIndices, newVerts := indices', verts';
      i := i + 1;
    }
    assert corners[..3 * i] == corners;
  }

  /** The state of the inner loop of `restructureVertices` after `j`
      corners of `t`, which starts at position `base` of `corners`: the
      list extends `newVerts` by the pairs first met so far, the map knows
      them, and the indices found point at the corners' pairs. */
  ghost predicate CornersVisited(t: Md2Triangle, corners: seq<NewVertex>, base: nat, j: nat,
                                 newVerts: seq<NewVertex>, indices: seq<nat>,
                                 m: map<NewVertex, nat>, verts: seq<NewVertex>)
  {
    j <= 3 && base + j <= |corners| &&
    verts == FirstAppearances(corners[..base + j]) && IndexMapValid(m, verts) &&
    |newVerts| <= |verts| && verts[..|newVerts|] == newVerts &&
    |indices| == j && IndicesPoint(indices, t, verts)
  }

  /** The inner loop of `restructureVertices`, over the three corners of
      one triangle: the list only grows, by the pairs not seen before. */
  method RestructureTriangle(t: Md2Triangle, newIndices: map<NewVertex, nat>, newVerts: seq<NewVertex>,
                             ghost corners: seq<NewVertex>, ghost base: nat)
    returns (indices: seq<nat>, indices': map<NewVertex, nat>, verts': seq<NewVertex>)
    requires base + 3 <= |corners|
    requires forall j :: 0 <= j < 3 ==> corners[base + j] == Corner(t, j)
    requires newVerts == FirstAppearances(corners[..base]) && IndexMapValid(newIndices, newVerts)
    ensures verts' == FirstAppearances(corners[..base + 3]) && IndexMapValid(indices', verts')
    ensures |newVerts| <= |verts'| && verts'[..|newVerts|] == newVerts
    ensures |indices| == 3 && IndicesPoint(indices, t, verts')
  {
    indices', verts' := newIndices, newVerts;
    indices := [];
    assert verts'[..|newVerts|] == newVerts;
    var j := 0;
    while j < 3
      invariant 0 <= j <= 3
      invariant CornersVisited(t, corners, base, j, newVerts, indices, indices', verts')
    {
      indices, indices', verts' := VisitCorner(t, corners, base, j, newVerts, indices, indices', verts');
      j := j + 1;
    }
  }

  /** One pass of the inner loop: corner `j`'s pair is looked up, and
      appended with the next free index when it is new. */
  method VisitCorner(t: Md2Triangle, ghost corners: seq<NewVertex>, ghost base: nat, j: nat,
                     ghost newVerts: seq<NewVertex>, indices: seq<nat>,
                     m: map<NewVertex, nat>, verts: seq<NewVertex>)
    returns (indices': seq<nat>, m': map<NewVertex, nat>, verts': seq<NewVertex>)
    requires j < 3 && base + 3 <= |corners| && corners[base + j] == Corner(t, j)
    requires CornersVisited(t, corners, base, j, newVerts, indices, m, verts)
    ensures CornersVisited(t, corners, base, j + 1, newVerts, indices', m', verts')
  {
    var newVert := Corner(t, j);
    CornerStep(corners, base + j, m, verts);
    var newIndex;
    if newVert in m {
      newIndex := m[newVert];
      m', verts' := m, verts;
    } else {
      AppendKeepsMapped([], [], 0, indices, t, verts, [newVert]);
      newIndex := |verts|;
      verts' := verts + [newVert];
      m' := m[newVert := newIndex];
      assert verts'[..|newVerts|] == newVerts by {
        assert verts'[..|verts|] == verts;
      }
    }
    IndicesPointSnoc(indices, t, verts', newIndex);
    indices' := indices + [newIndex];
  }

  /** The restructured mesh has no duplicate vertex, uses every pair some
      corner names and no other, and has at most three vertices per
      triangle. */
  lemma RestructuredVerticesDistinct(tris: seq<Md2Triangle>)
    ensures var verts := FirstAppearances(AllCorners(tris));
      (forall a, b :: 0 <= a < b < |verts| ==> verts[a] != verts[b]) &&
      (forall t, j :: 0 <= t < |tris| && 0 <= j < 3 ==> Corner(tris[t], j) in verts) &&
      (forall v :: v in verts ==> exists t, j :: 0 <= t < |tris| && 0 <= j < 3 && v == Corner(tris[t], j)) &&
      |verts| <= 3 * |tris|
  {
    var cs := AllCorners(tris);
    forall v | v in cs
      ensures exists t, j :: 0 <= t < |tris| && 0 <= j < 3 && v == Corner(tris[t], j)
    {
      var p :| 0 <= p < |cs| && cs[p] == v;
      assert cs[3 * (p / 3) + p % 3] == Corner(tris[p / 3], p % 3);
    }
  }

  /** The constructor's clamp: a reference frame past the last frame falls
      back to frame 0; a negative one is kept. */
  function ClampReferenceFrame(referenceFrame: int, numFrames: int): (r: int)
    ensures referenceFrame < numFrames ==> r == referenceFrame
    ensures referenceFrame >= numFrames ==> r == 0
    ensures 0 <= referenceFrame ==> 0 <= r
  {
    if referenceFrame >= numFrames then 0 else referenceFrame
  }

  /** For a model with frames, a non-negative reference frame ends up in
      range, and clamping twice is clamping once. */
  lemma ClampReferenceFrameInRange(referenceFrame: int, numFrames: int)
    requires numFrames > 0
    ensures 0 <= referenceFrame ==> 0 <= ClampReferenceFrame(referenceFrame, numFrames) < numFrames
    ensures ClampReferenceFrame(ClampReferenceFrame(referenceFrame, numFrames), numFrames) ==
      ClampReferenceFrame(referenceFrame, numFrames)
  {
  }

  /** `buildFace`: the new triangle with its winding flipped. */
  function BuildFace(nt: NewTriangle): (f: Face)
    requires |nt.indices| == 3
    ensures f.v1 == nt.indices[0] && f.v2 == nt.indices[2] && f.v3 == nt.indices[1]
  {
    FlipWinding(nt.indices[0], nt.indices[1], nt.indices[2])
  }

  /** `MD2Vertex`: a position packed in three bytes, and a normal index. */
  datatype Md2Vertex = Md2Vertex(x: int, y: int, z: int, normalIndex: int)

  /** `MD2Frame`: the frame header's per-axis scale and translation, and
      the packed vertices. */
  datatype Md2Frame = Md2Frame(scale: Vec3, translate: Vec3, vertices: seq<Md2Vertex>)

  predicate IsByte(n: int) {
    0 <= n < 256
  }

  /** `convertPosition`, before the change of coordinate system: each
      byte times the frame's scale plus its translation.  With a non-zero
      scale the byte can be read back from the position. */
  function ConvertPosition(v: Md2Vertex, frame: Md2Frame): (p: Vec3)
    ensures frame.scale.x != 0.0 ==> (p.x - frame.translate.x) / frame.scale.x == v.x as real
    ensures frame.scale.y != 0.0 ==> (p.y - frame.translate.y) / frame.scale.y == v.y as real
    ensures frame.scale.z != 0.0 ==> (p.z - frame.translate.z) / frame.scale.z == v.z as real
  {
    AxisUnpacks(v.x, frame.scale.x, frame.translate.x);
    AxisUnpacks(v.y, frame.scale.y, frame.translate.y);
    AxisUnpacks(v.z, frame.scale.z, frame.translate.z);
    Vec3(v.x as real * frame.scale.x + frame.translate.x,
         v.y as real * frame.scale.y + frame.translate.y,
         v.z as real * frame.scale.z + frame.translate.z)
  }

  /** With non-negative scales each unpacked coordinate of a byte lies in
      the range the frame header spans. */
  lemma ConvertPositionInBox(v: Md2Vertex, frame: Md2Frame)
    requires IsByte(v.x) && IsByte(v.y) && IsByte(v.z)
    requires frame.scale.x >= 0.0 && frame.scale.y >= 0.0 && frame.scale.z >= 0.0
    ensures var q := ConvertPosition(v, frame);
      frame.translate.x <= q.x <= 255.0 * frame.scale.x + frame.translate.x &&
      frame.translate.y <= q.y <= 255.0 * frame.scale.y + frame.translate.y &&
      frame.translate.z <= q.z <= 255.0 * frame.scale.z + frame.translate.z
  {
    var q := ConvertPosition(v, frame);
    AxisUnpacks(v.x, frame.scale.x, frame.translate.x);
    AxisUnpacks(v.y, frame.scale.y, frame.translate.y);
    AxisUnpacks(v.z, frame.scale.z, frame.translate.z);
    assert q.x == v.x as real * frame.scale.x + frame.translate.x;
    assert q.y == v.y as real * frame.scale.y + frame.translate.y;
    assert q.z == v.z as real * frame.scale.z + frame.translate.z;
  }

  /** One coordinate: `b * s + t` gives back `b`, and stays within the
      range a byte spans. */
  lemma AxisUnpacks(b: int, s: real, t: real)
    ensures s != 0.0 ==> ((b as real * s + t) - t) / s == b as real
    ensures IsByte(b) && s >= 0.0 ==> t <= b as real * s + t <= 255.0 * s + t
  {
    if IsByte(b) && s >= 0.0 {
      assert (255.0 - b as real) * s >= 0.0;
    }
  }

  /** `buildTexCoord`: the texture coordinate in texels divided by the skin
      size. */
  function TexCoord(u: int, v: int, skinWidth: int, skinHeight: int): (r: (real, real))
    requires skinWidth != 0 && skinHeight != 0
    ensures r.0 * skinWidth as real == u as real && r.1 * skinHeight as real == v as real
  {
    (u as real / skinWidth as real, v as real / skinHeight as real)
  }

  /** An MD2 texture coordinate, in texels. */
  datatype Md2TexCoord = Md2TexCoord(u: int, v: int)

  /** The two vertex buffers `buildVertexBuffers` writes for a frame: the
      position of each new vertex's MD2 vertex, and the texture coordinate
      of its MD2 texture coordinate. */
  function PositionBuffer(frame: Md2Frame, newVerts: seq<NewVertex>): (ps: seq<Vec3>)
    requires forall k :: 0 <= k < |newVerts| ==> 0 <= newVerts[k].vert < |frame.vertices|
    ensures |ps| == |newVerts|
    ensures forall k :: 0 <= k < |newVerts| ==> ps[k] == ConvertPosition(frame.vertices[newVerts[k].vert], frame)
  {
    seq(|newVerts|, k requires 0 <= k < |newVerts| => ConvertPosition(frame.vertices[newVerts[k].vert], frame))
  }

  function TexCoordBuffer(texCoords: seq<Md2TexCoord>, newVerts: seq<NewVertex>,
                          skinWidth: int, skinHeight: int): (ts: seq<(real, real)>)
    requires skinWidth != 0 && skinHeight != 0
    requires forall k :: 0 <= k < |newVerts| ==> 0 <= newVerts[k].tex < |texCoords|
    ensures |ts| == |newVerts|
    ensures forall k :: 0 <= k < |newVerts| ==>
      var tc := texCoords[newVerts[k].tex];
      ts[k] == TexCoord(tc.u, tc.v, skinWidth, skinHeight)
  {
    seq(|newVerts|, k requires 0 <= k < |newVerts| =>
      var tc := texCoords[newVerts[k].tex];
      TexCoord(tc.u, tc.v, skinWidth, skinHeight))
  }

  /** The point of the restructuring: every corner of every triangle, read
      through its new index, shows the position and (for a non-zero skin
      size) the texture coordinate the MD2 triangle gave that corner, and
      the flipped face indexes the new vertex buffer. */
  lemma RestructuringKeepsCorners(tris: seq<Md2Triangle>, newVerts: seq<NewVertex>, newTris: seq<NewTriangle>,
                                  frame: Md2Frame, texCoords: seq<Md2TexCoord>,
                                  skinWidth: int, skinHeight: int, t: nat, j: nat)
    requires |newTris| == |tris| && t < |tris| && j < 3
    requires forall k :: 0 <= k < |tris| ==> TriangleMapped(newTris[k], tris[k], newVerts)
    requires forall k :: 0 <= k < |newVerts| ==> 0 <= newVerts[k].vert < |frame.vertices|
    requires forall k :: 0 <= k < |newVerts| ==> 0 <= newVerts[k].tex < |texCoords|
    ensures TriangleMapped(newTris[t], tris[t], newVerts)
    ensures var f := BuildFace(newTris[t]);
      f.v1 < |newVerts| && f.v2 < |newVerts| && f.v3 < |newVerts|
    ensures var n := newTris[t].indices[j];
      var c := Corner(tris[t], j);
      0 <= c.vert < |frame.vertices| && 0 <= c.tex < |texCoords| &&
      PositionBuffer(frame, newVerts)[n] == ConvertPosition(frame.vertices[c.vert], frame) &&
      (skinWidth != 0 && skinHeight != 0 ==>
        TexCoordBuffer(texCoords, newVerts, skinWidth, skinHeight)[n] ==
          TexCoord(texCoords[c.tex].u, texCoords[c.tex].v, skinWidth, skinHeight))
  {
    assert TriangleMapped(newTris[t], tris[t], newVerts);
    var n := newTris[t].indices[j];
    assert newVerts[n] == Corner(tris[t], j);
  }

  /** `buildKeyframe`: frame `frameIndex` of the model laid out like the
      new vertex buffer.  Keyframe `i` of an animation shows model frame
      `startFrame + i`, so every keyframe reads an existing frame exactly
      when the animation's frames lie inside the model. */
  function KeyframePositions(frames: seq<Md2Frame>, frameIndex: int, newVerts: seq<NewVertex>): (ps: seq<Vec3>)
    requires 0 <= frameIndex < |frames|
    requires forall k :: 0 <= k < |newVerts| ==> 0 <= newVerts[k].vert < |frames[frameIndex].vertices|
    ensures |ps| == |newVerts|
    ensures forall k :: 0 <= k < |newVerts| ==>
      ps[k] == ConvertPosition(frames[frameIndex].vertices[newVerts[k].vert], frames[frameIndex])
  {
    PositionBuffer(frames[frameIndex], newVerts)
  }
}
