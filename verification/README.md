# quaketoogre core, modelled in Dafny

quaketoogre converts Quake 2 (MD2), Quake 3 (MD3) and Doom 3 (MD5) models
into Ogre's XML mesh and skeleton formats. This project models the
arithmetic and bookkeeping at its core, the part that remains once the
file readers and the XML writer are taken away:

- the quaternion and vector helpers (`quaternion.cpp`, `vector.cpp`) and
  the Quake-to-Ogre change of axes (`Quake.cpp`);
- the MD5 conversion (`MD5ModelToMesh.cpp`):
  - bones, the bone hierarchy and animation tracks, built from joint
    differences;
  - animation resampling;
  - the per-vertex skin-weight sort, truncation and renormalisation;
  - the winding flip and vertex-normal generation;
- the MD5 helpers (`md5anim.cpp`, `md5mesh.cpp`):
  - the model/animation compatibility check;
  - frame-skeleton building from flag-selected components;
  - skeleton interpolation and the frame-stepping state machine;
  - weighted vertex posing, shader-name extraction and the version check;
- the morph converters (`Q2ModelToMesh.cpp`, `Q3ModelToMesh.cpp`):
  - MD2 vertex restructuring into unique (vertex, texcoord) pairs;
  - reference-frame clamping and frame slicing;
  - position unpacking, packed normals and morph tracks;
- the string and path helpers (`StringUtil.cpp`, `changeToWorkingDir` and
  the success rule of `processConfigFile` in `Main.cpp`).

Every writer call becomes a returned record sequence: faces, bones, bone
parents, keyframes and bone assignments. Numbers are mathematical reals
and integers. `sqrt`, `sin`, `cos`, `atan2` and `acos` are uninterpreted
(`real_math.dfy`):

- `Sqrt(x)` is the non-negative root whenever one exists.
- Over Dafny's reals that existence cannot be derived. The facts that need
  it carry the hypothesis `HasRoot(x)`, which holds for every `x >= 0`
  over the mathematical reals.
- `Pythagorean(a)` likewise stands for `sin(a)^2 + cos(a)^2 = 1`.

A quaternion is one `Quat(x, y, z, w)` datatype throughout. This covers
both the C array `quat4_t`, indexed X, Y, Z, W, and the `Quaternion` class
used by `md5anim.cpp` and `md5mesh.cpp`. Where a header and its `.cpp`
disagree, the `.cpp` is followed. Examples:

- `MD5ModelToMesh.h` against the constructor that sets `mMaxWeights` to -1;
- the quaternion operators `md5anim.cpp` uses but no header declares. They
  are read as `Quat_rotatePoint`, `Quat_multQuat`, `Quat_slerp` and
  `Quat_normalize`.

Modules, one file each:

- `RealMath`: the uninterpreted real functions.
- `Vector`: `vec_*` from `vector.cpp`.
- `Quaternion`: `Quat_*` from `quaternion.cpp`.
- `QuatAlgebra`: identities of the quaternion product.
- `Quake`: `Quake.cpp`.
- `Wrappers`: `Option`.
- `StringUtil`: `StringUtil.cpp`.
- `OgreMesh`: the output records, the face flip and the face list shared by the MD5 and MD3 converters.
- `Md5Model`: the `md5model.h` records.
- `Md5Anim`, `Md5Mesh`: `md5anim.cpp` and `md5mesh.cpp`.
- `Md5Skeleton`, `Md5Resample`, `SkinWeights`, `Md5Normals`: the four parts
  of `MD5ModelToMesh.cpp`.
- `MorphTrack`: the morph track shared by both Quake converters.
- `Q2ToMesh`, `Q3ToMesh`: `Q2ModelToMesh.cpp` and `Q3ModelToMesh.cpp`.
- `MainProgram`: `Main.cpp`.

## Model

| member | source | states |
|---|---|---|
| Vector.Subtract | vector.cpp:18-23 | adding `b` back to `a - b` gives `a` |
| Vector.Add | vector.cpp:11-16 | the zero vector is an identity on either side |
| Vector.AddDot | vector.cpp:11-16 | the sum distributes over the dot product |
| Vector.AddSubtractInverse | vector.cpp:11-23 | `subtract(add(a, b), b) == a` |
| Vector.Scale | vector.cpp:25-30 | scaling by 1 keeps the vector; scaling by 0 gives the zero vector |
| Vector.Cross | vector.cpp:32-37 | the cross product is orthogonal to both operands |
| Vector.CrossAntiCommutative | vector.cpp:32-37 | `cross(a, b) == -cross(b, a)` |
| Vector.CrossSelfIsZero | vector.cpp:32-37 | `cross(a, a)` is the zero vector |
| Vector.Normalize | vector.cpp:39-45 | there is no zero guard, so a positive length is required; the result is parallel to `v`, points the same way, and has unit length |
| Quaternion.ComputeW | quaternion.cpp:43-52 | x, y, z are kept and `w <= 0`; `w` is 0 when `1 - x² - y² - z² < 0`, otherwise the quaternion has unit norm |
| Quaternion.Normalize | quaternion.cpp:54-72 | a zero quaternion is left unchanged; otherwise the result times the magnitude is `q` again (same direction) and has unit norm |
| Quaternion.MultVec | quaternion.cpp:83-90 | the product with a vector is the Hamilton product with the pure quaternion `(v, 0)` |
| Quaternion.Dot4 | quaternion.cpp:114-118 | the dot product of the vector parts plus `a.w b.w`; the squared norm when both arguments are the same |
| Quaternion.Conjugate | quaternion.cpp:205-211 | the conjugate has the same norm |
| Quaternion.Inverse | quaternion.cpp:213-217 | the normalised conjugate is the conjugate for a unit (or zero) quaternion |
| Quaternion.RotatePoint | quaternion.cpp:92-108 | for a unit `q`, rotating a point is the vector part of `q (v, 0) q*` |
| Quaternion.ShortestArc | quaternion.cpp:139-155 | the second quaternion is `qb` or `-qb`, whichever has a non-negative dot product with `qa` |
| Quaternion.SlerpWeights | quaternion.cpp:160-188 | for nearly parallel quaternions the weights are `(1 - t, t)` and sum to 1 |
| Quaternion.SinFromCos | quaternion.cpp:174-183 | the sine computed from a cosine at most 0.9999 is positive, so the division never divides by zero |
| Quaternion.Slerp | quaternion.cpp:120-195 | returns `qa` exactly when `t <= 0`, `qb` exactly when `t >= 1`, and the linear blend for nearly parallel inputs of either sign |
| Quaternion.AngleAxisOfNormalized | quaternion.cpp:225-240 | angle 0 and axis (1, 0, 0) when the vector part is zero; otherwise the axis is the vector part scaled to unit length and the angle is non-negative |
| Quaternion.ToAngleAxis | quaternion.cpp:219-241 | a quaternion with no vector part gives angle 0 about (1, 0, 0); otherwise, when the normalisation's root exists, the axis is parallel to the vector part and points its way, and the angle is non-negative |
| Quaternion.ReciprocalScale | quaternion.cpp:229-232 | multiplying by `1 / sqrt(lenSqr)` is the same as normalising the vector part |
| QuatAlgebra.MultIdentity | quaternion.cpp:74-81 | (0, 0, 0, 1) is a left and right identity of the product |
| QuatAlgebra.MultScalarVector | quaternion.cpp:74-81 | in scalar-and-vector form the product is `(a.w b.w - a·b, a.w b + b.w a + a × b)` |
| QuatAlgebra.MultAssociative | quaternion.cpp:74-81 | the product is associative |
| QuatAlgebra.Norm2Mult | quaternion.cpp:74-81 | the squared norm of a product is the product of the squared norms |
| QuatAlgebra.ConjugateInvolution | quaternion.cpp:205-211 | conjugating twice gives the quaternion back |
| QuatAlgebra.ConjugateOfProduct | quaternion.cpp:205-211 | the conjugate of a product is the product of the conjugates in reverse order |
| QuatAlgebra.MultConjugate | quaternion.cpp:74-81 | `q q*` and `q* q` are the scalar squared norm of `q` |
| QuatAlgebra.InverseOfUnit | quaternion.cpp:213-217 | for a unit `q` the inverse is the conjugate and multiplies with `q` to the identity on both sides |
| QuatAlgebra.RotatePointIdentity | quaternion.cpp:92-108 | rotating by the identity leaves a point unchanged |
| QuatAlgebra.SandwichPure | quaternion.cpp:102-107 | the product `q (v, 0) q*` has zero w, so dropping w loses nothing |
| QuatAlgebra.RotatePointRoundTrip | quaternion.cpp:92-108 | rotating by a unit `q` and then by its conjugate gives the point back |
| QuatAlgebra.NormalizeUnit | quaternion.cpp:54-72 | normalising a unit quaternion leaves it unchanged |
| QuatAlgebra.SlerpSame | quaternion.cpp:120-195 | interpolating a unit quaternion with itself gives it back for every `t` |
| QuatAlgebra.SlerpShortestPath | quaternion.cpp:139-155 | for `0 < t < 1`, interpolating towards `-qb` is the same as towards `qb` |
| QuatAlgebra.Dot4Conjugate | quaternion.cpp:114-118 | the dot product is the scalar part of `a b*` |
| QuatAlgebra.ToAngleAxisIdentity | quaternion.cpp:219-241 | the identity rotation gives angle 0 and axis (1, 0, 0) |
| QuatAlgebra.ToAngleAxisOfUnit | quaternion.cpp:219-241 | for a unit quaternion with non-zero vector part, the axis is that part normalised |
| Quake.ConvertVector | Quake.cpp:11-17 | (x, y, z) becomes (x, z, -y): x and the length are kept |
| Quake.ConvertVectorRoundTrip | Quake.cpp:11-17 | the conversion has the inverse (x, y, z) to (x, -z, y), in both orders |
| Quake.ConvertVectorFourTimes | Quake.cpp:11-17 | two conversions are a half turn, four are the identity |
| Quake.ConvertVectorLinear | Quake.cpp:11-17 | the conversion commutes with addition and with the cross product |
| Quake.ConvertQuaternion | Quake.cpp:19-26 | pre-multiplying by the fixed quaternion scales the squared norm by its squared norm |
| Quake.ConvertProduct | Quake.cpp:19-26 | converting `a b` is converting `a` and multiplying by `b` |
| Quake.ConvertIdentity | Quake.cpp:19-26 | converting the identity gives the fixed quaternion (0.707107, 0, 0, -0.707107) |
| StringUtil.FindLastOf | StringUtil.cpp:18 | `find_last_of`: no position iff no character of the set; else a member of the set with none after it |
| StringUtil.GetExtension | StringUtil.cpp:16-25 | "" without a '.'; otherwise the lower-cased text after the last '.', which holds no '.' and no upper-case letter |
| StringUtil.GetExtensionIgnoresCase | StringUtil.cpp:22-23 | the extension of a lower-cased name is the extension of the name |
| StringUtil.StripQuotes | StringUtil.cpp:27-35 | one enclosing pair of quotes is removed, a lone `"` becomes "", anything else is returned unchanged |
| StringUtil.StripQuotesOfQuote | StringUtil.cpp:27-35 | stripping undoes quoting, and removes one layer only |
| StringUtil.ToString | StringUtil.cpp:4-7 | the prefix of the buffer of length `min(strlen, len)` |
| StringUtil.ToStringOfTerminated | StringUtil.cpp:4-7 | a NUL-terminated text is read back in full when `len` covers it |
| OgreMesh.FlipWinding | MD5ModelToMesh.cpp:110-117 | the first corner is kept and the other two are swapped |
| OgreMesh.FlipWindingInvolution | MD5ModelToMesh.cpp:110-117 | flipping twice restores the triangle |
| OgreMesh.BuildFaces | MD5ModelToMesh.cpp:110-117 | one face per triangle, in triangle order, written (index 0, index 2, index 1); the MD3 converter writes the same faces (Q3ModelToMesh.cpp:84-93) |
| OgreMesh.BuildFacesTwice | Q3ModelToMesh.cpp:84-93 | writing the written faces again gives every triangle back in its original corner order |
| Md5Model.Run | MD5ModelToMesh.cpp:194-195 | a vertex's weights are the `count` weights from `start` on |
| Md5Mesh.CheckVersion | md5mesh.cpp:64-73 | the file is accepted iff every `MD5Version` line says 10 |
| Md5Mesh.ShaderName | md5mesh.cpp:126-142 | the shader name contains no quote |
| Md5Mesh.ExtractShader | md5mesh.cpp:128-141 | the copy loop over the line buffer computes the shader name |
| Md5Mesh.ShaderBetweenQuotes | md5mesh.cpp:126-142 | the name is exactly the characters strictly between the first and second quote |
| Md5Mesh.ShaderAfterOneQuote | md5mesh.cpp:126-142 | with a single quote the name runs to the end of the buffer |
| Md5Mesh.ShaderOfQuotedName | md5mesh.cpp:126-142 | extracting from a quoted name gives the name back |
| Md5Mesh.ShaderNameOverflows | md5mesh.cpp:128-141 | a 512-character line whose quoted name has 300 characters yields a name longer than the 256-character `shader` field |
| Md5Mesh.StoredShaderName | md5mesh.cpp:128-141 | the name as the field can hold it: under 256 characters, a prefix of the quoted name, and the whole name when it fits |
| Md5Mesh.StoredShaderNameOfQuotedName | md5mesh.cpp:128-141 | a quoted name under 256 characters is stored whole; a longer one keeps its first 255 characters |
| Md5Mesh.PrepareMesh | md5mesh.cpp:263-294 | one position per vertex; a vertex without weights is at the origin |
| Md5Mesh.WeightedSumOfCommonPoint | md5mesh.cpp:277-290 | weights that place the vertex at the same point sum to that point times the total bias |
| Md5Mesh.PrepareMeshAgreeingWeights | md5mesh.cpp:263-294 | when all weights agree on a point and the biases sum to 1, the vertex is at that point |
| Md5Mesh.PrepareMeshSingleWeight | md5mesh.cpp:278-292 | a single weight of bias 1 puts the vertex at `joint.pos + joint.orient ⊗ weight.pos` |
| Md5Mesh.WeightPointUnrotated | md5mesh.cpp:285-289 | on a joint with identity orientation the weight's point is `joint.pos + weight.pos` |
| Md5Anim.CheckAnimValidity | md5anim.cpp:63-86 | three outcomes. Incompatible when the joint counts differ. Compatible when they agree and either there are no joints or every joint of frame 0 has the base joint's parent and name. `MissingFrame` when there are joints but no frame 0, where the code reads a frame that was never allocated |
| Md5Anim.SkeletonMatchesItself | md5anim.cpp:63-86 | a skeleton is compatible with itself |
| Md5Anim.RankMonotone | md5anim.cpp:105-145 | the count of flagged components never decreases along the six slots |
| Md5Anim.ReadComponents | md5anim.cpp:105-145 | exactly the flagged components are read, in order Tx..Qz from `startIndex`; unflagged ones keep the base value |
| Md5Anim.FrameJoint | md5anim.cpp:149-176 | a root joint takes the animated pose; a child is its parent's position plus the rotated offset, with normalised composed orientation; name and parent are copied |
| Md5Anim.BuildFrameSkeleton | md5anim.cpp:91-178 | each joint is built from the joints before it, so parents must come first |
| Md5Anim.BuildFrameSkeletonChild | md5anim.cpp:164-176 | the composition rule holds for every child in the finished skeleton |
| Md5Anim.UnanimatedRootsKeepBase | md5anim.cpp:105-162 | with no flags set, root joints keep the base-frame positions |
| Md5Anim.InterpolateJoint | md5anim.cpp:374-386 | the parent comes from A and the name is not copied; the position is `(1 - interp) A + interp B`, the orientation is `slerp(A, B, interp)`, and `interp` 0 gives A's pose and 1 gives B's |
| Md5Anim.InterpolateSkeletons | md5anim.cpp:366-387 | the joints are interpolated one by one |
| Md5Anim.InterpolateSameSkeleton | md5anim.cpp:366-387 | interpolating a unit skeleton with itself gives it back |
| Md5Anim.NextFrame | md5anim.cpp:397-412 | the next frame index, wrapping from the last frame to 0, stays in range |
| Md5Anim.Animate | md5anim.cpp:393-414 | below `max_time` only the time grows; otherwise both frames step and the time resets; in-range indices stay in range |
| Md5Anim.StepFramesWrap | md5anim.cpp:393-414 | `k` steps from a frame are `frame + k` modulo the frame count |
| Md5Anim.FrameCycle | md5anim.cpp:393-414 | stepping once per frame returns to the starting frame |
| Md5Skeleton.JointDifferenceRoundTrip | MD5ModelToMesh.cpp:515-527 | applying the difference to `from` reproduces `to`'s orientation and position |
| Md5Skeleton.JointDifferenceSelf | MD5ModelToMesh.cpp:515-527 | a joint's difference with itself is no translation and, for a unit orientation, no rotation |
| Md5Skeleton.RelativeRotationUnit | MD5ModelToMesh.cpp:515-527 | the relative rotation of two unit orientations is a unit quaternion |
| Md5Skeleton.AnimationDeltaAtRest | MD5ModelToMesh.cpp:529-558 | an animated joint (and parent) equal to the base gives zero translation and, for unit orientations, identity rotation |
| Md5Skeleton.AnimationDeltaRootReplays | MD5ModelToMesh.cpp:550-557 | for a root, the delta applied to the base joint gives the animated joint |
| Md5Skeleton.AnimationDeltaChildReplays | MD5ModelToMesh.cpp:533-549 | for a child, the delta applied to the base local pose gives the animated local pose |
| Md5Skeleton.BoneLocalPoseComposes | MD5ModelToMesh.cpp:270-275 | a child bone's local pose composed with its parent gives the joint's object-space pose |
| Md5Skeleton.BuildBones | MD5ModelToMesh.cpp:235-302 | one bone per joint with its index and stripped name; a root copies its pose; a child's position is relative to its parent |
| Md5Skeleton.BuildBonesUnrotatedRoot | MD5ModelToMesh.cpp:248-280 | a root with identity orientation gets angle 0 about (1, 0, 0) |
| Md5Skeleton.ChildIndices | MD5ModelToMesh.cpp:308-313 | the joints visited by the hierarchy loop, in increasing order, all have a parent |
| Md5Skeleton.ChildIndicesComplete | MD5ModelToMesh.cpp:308-313 | a joint is visited iff it has a parent |
| Md5Skeleton.BuildBoneHierarchy | MD5ModelToMesh.cpp:304-323 | one (bone, parent) edge per joint with a parent, in joint order, none for roots |
| Md5Skeleton.FindJoint | MD5ModelToMesh.cpp:503-512 | the first joint whose stripped name matches, or none iff no joint matches |
| Md5Skeleton.KeyframeTimes | MD5ModelToMesh.cpp:396-398 | keyframe `i` is at `i / frameRate`: the first at 0, and later keyframes strictly later |
| Md5Skeleton.BuildTrack | MD5ModelToMesh.cpp:385-434 | one keyframe per frame, at its time, for the stripped bone name; each carries that frame's animation-delta translation and, as `buildKeyFrame` writes it, the angle and axis `Quat_toAngleAxis` gives for the delta's rotation |
| Md5Skeleton.BuildTrackAtRest | MD5ModelToMesh.cpp:385-419 | an animation that never moves the joint gives zero translations |
| Md5Skeleton.BuildTrackAtRestUnrotated | MD5ModelToMesh.cpp:385-434 | an animation that never moves the joint, with unit base orientations for the joint and its parent, gives every keyframe the rotation angle 0 about (1, 0, 0) |
| Md5Skeleton.ConvertJoint | MD5ModelToMesh.cpp:560-568 | name and parent are kept, the position is converted reversibly and the orientation is the converted quaternion |
| Md5Skeleton.ConvertSkeleton | MD5ModelToMesh.cpp:560-568 | every joint is converted |
| Md5Skeleton.ConvertModel | MD5ModelToMesh.cpp:560-568 | only the base skeleton changes |
| Md5Skeleton.ConvertAnim | MD5ModelToMesh.cpp:570-585 | every frame's joints and bounding box are converted; counts and rate are kept |
| Md5Skeleton.ConvertKeepsCompatibility | MD5ModelToMesh.cpp:346-354 | the compatibility check gives the same answer before and after converting |
| Md5Skeleton.ConvertAnimWellFormed | MD5ModelToMesh.cpp:570-585 | converting keeps an animation well formed, and only a well-formed one |
| Md5Skeleton.FileTypeTestsIgnoreCase | MD5ModelToMesh.cpp:587-595 | `isMD5Mesh` and `isMD5Anim` ignore case |
| Md5Skeleton.MeshFileName | MD5ModelToMesh.cpp:587-595 | a name ending ".md5mesh" is a mesh and not an animation |
| Md5Skeleton.AnimFileName | MD5ModelToMesh.cpp:587-595 | a name ending ".md5anim" is an animation and not a mesh |
| StringUtil.ExtensionOfSuffix | StringUtil.cpp:16-25 | the extension after a final '.' is that suffix lower-cased |
| Md5Resample.TruncDiv | MD5ModelToMesh.cpp:488 | C integer division: the remainder has the dividend's sign and a smaller magnitude than the divisor, so the quotient truncates toward zero; it is the floor quotient for non-negative operands and has the sign of the true quotient |
| Md5Resample.Interp | MD5ModelToMesh.cpp:496-498 | the blend fraction lies in [0, 1) |
| Md5Resample.SourceFrameIsQuotient | MD5ModelToMesh.cpp:491-498 | the source frame is `(i * inRate) / fps` and the fraction is the remainder over `fps` |
| Md5Resample.SourceFrameInRange | MD5ModelToMesh.cpp:488-499 | the first read of every output frame is an input frame |
| Md5Resample.DownsamplingReadsInRange | MD5ModelToMesh.cpp:488-499 | when the rate goes down, the second read is in range as well |
| Md5Resample.UpsamplingReadsPastEnd | MD5ModelToMesh.cpp:488-499 | 2 frames from 10 to 20 fps: output frame 2 reads input frame 2, one past the end |
| Md5Resample.NextSourceFrame | MD5ModelToMesh.cpp:499 | the second frame, held at the last input frame: the frame after the source frame, or the last frame |
| Md5Resample.NextSourceFrameInRange | MD5ModelToMesh.cpp:488-499 | both reads are in range for every output frame, and agree with the code wherever it was in range |
| Md5Resample.CountCoversDuration | MD5ModelToMesh.cpp:488 | the output holds as many whole frames as fit in the input's duration |
| Md5Resample.ResampledFrame | MD5ModelToMesh.cpp:494-499 | every resampled skeleton has one joint per animation joint |
| Md5Resample.ResampleAnimation | MD5ModelToMesh.cpp:483-501 | for a non-zero input rate: the new rate and joint count; the truncated frame count `(frames * fps) / inRate`, or no frames when that is not positive (as for a negative input rate); each frame interpolates the two input frames around its time |
| Md5Resample.NoFramesAtNegativeRate | MD5ModelToMesh.cpp:488-490 | a positive output frame count needs a positive input rate |
| Md5Resample.ResampleKeepsFirstFrame | MD5ModelToMesh.cpp:492-499 | output frame 0 has the poses of input frame 0 |
| Md5Resample.FinalAnim | MD5ModelToMesh.cpp:363-370 | resampling happens only for a positive rate that differs from the file's; then a file rate of 0 has no result (line 488 divides by it) and a negative one gives no frames; otherwise the animation is used as read |
| SkinWeights.SortWeights | MD5ModelToMesh.cpp:193-196 | a permutation of the weights in non-increasing bias order |
| SkinWeights.SortWeightsStable | MD5ModelToMesh.cpp:178-196 | weights with equal bias keep their file order |
| SkinWeights.SortedOrderUnique | MD5ModelToMesh.cpp:178-196 | only one index order is sorted and stable, so the result is determined |
| SkinWeights.PermuteByOrder | MD5ModelToMesh.cpp:194-196 | reading the weights through a permutation of their indices keeps the multiset |
| SkinWeights.Truncate | MD5ModelToMesh.cpp:198-200 | a prefix of at most `mMaxWeights` weights when that is positive, and all weights otherwise |
| SkinWeights.Renormalise | MD5ModelToMesh.cpp:207-218 | one assignment per kept weight with the vertex, the bone and `bias / totalWeight` |
| SkinWeights.RenormaliseSum | MD5ModelToMesh.cpp:202-215 | the written weights sum to the kept biases' sum over the total |
| SkinWeights.RenormalisedSumToOne | MD5ModelToMesh.cpp:202-215 | dividing by the kept biases' own total makes the weights sum to 1 |
| SkinWeights.VertexAssignments | MD5ModelToMesh.cpp:188-218 | at most `mMaxWeights` assignments (all weights when unlimited), each for this vertex and one of its bones |
| SkinWeights.VertexAssignmentsRenormalise | MD5ModelToMesh.cpp:193-215 | a vertex's assignments are the sorted, truncated weights over their total |
| SkinWeights.VertexAssignmentsSumToOne | MD5ModelToMesh.cpp:202-215 | a vertex's written weights sum to 1 |
| SkinWeights.VertexAssignmentsDecrease | MD5ModelToMesh.cpp:193-215 | a vertex's written weights are in non-increasing order |
| SkinWeights.BuildBoneAssignments | MD5ModelToMesh.cpp:183-220 | every assignment names a converted vertex; no vertex has more than `mMaxWeights` of them, so there are at most `n × mMaxWeights` in total |
| Md5Normals.FaceNormal | MD5ModelToMesh.cpp:460-466 | the face normal is orthogonal to both edges |
| Md5Normals.FaceNormalWinding | MD5ModelToMesh.cpp:460-466 | reversing the corners turns the normal round; a triangle with two equal corners has none |
| Md5Normals.BuildFacesReverseNormals | MD5ModelToMesh.cpp:110-117 | each written face has the opposite normal to its triangle in file order |
| Md5Normals.AccumulateNormals | MD5ModelToMesh.cpp:450-474 | each vertex gets the sum of the normals of its triangles, counted once per corner at the vertex |
| Md5Normals.AddTriangle | MD5ModelToMesh.cpp:452-473 | one pass of the triangle loop extends the sums by that triangle |
| Md5Normals.AddToCorners | MD5ModelToMesh.cpp:469-473 | the face normal is added once for each corner at a vertex, and nowhere else |
| Md5Normals.UnusedVertexHasNoNormal | MD5ModelToMesh.cpp:450-474 | a vertex that no triangle uses keeps the zero normal |
| Md5Normals.SingleUseVertex | MD5ModelToMesh.cpp:450-474 | a vertex used once gets exactly that triangle's normal |
| Md5Normals.GenerateNormals | MD5ModelToMesh.cpp:448-481 | each vertex normal is its accumulated sum scaled to unit length, pointing the same way |
| MorphTrack.BuildMorphTrack | Q2ModelToMesh.cpp:203-222 | `numFrames` keyframes (none if it is not positive); keyframe `i` shows frame `startFrame + i` at time `i / fps` |
| MorphTrack.MorphTrackFramesInRange | Q2ModelToMesh.cpp:214-217 | all frames a track shows exist iff `startFrame..startFrame+numFrames-1` lies inside the model |
| MorphTrack.MorphTrackTimes | Q3ModelToMesh.cpp:166-199 | times start at 0 and strictly increase, and one interval after the last keyframe the `length` attribute is reached |
| Q2ToMesh.AllCorners | Q2ModelToMesh.cpp:31-42 | the (vertex, texcoord) pairs of all triangles, corner by corner |
| Q2ToMesh.FirstAppearances | Q2ModelToMesh.cpp:40-53 | the distinct pairs, each once, and exactly the pairs of the input |
| Q2ToMesh.RestructureVertices | Q2ModelToMesh.cpp:24-58 | the vertex list is the pairs in order of first appearance; one new triangle per triangle, whose indices point at its corners' pairs |
| Q2ToMesh.RestructureTriangle | Q2ModelToMesh.cpp:36-55 | one triangle's corners extend the list by the new pairs only and get indices that point at their pairs |
| Q2ToMesh.VisitCorner | Q2ModelToMesh.cpp:38-54 | a known pair reuses its index; a new pair is appended and gets the next index |
| Q2ToMesh.RestructuredVerticesDistinct | Q2ModelToMesh.cpp:24-58 | the new vertices have no duplicate, hold every corner's pair and no other, and number at most three per triangle |
| Q2ToMesh.RestructuringKeepsCorners | Q2ModelToMesh.cpp:124-151 | every face index is in range, and the vertex it names has the corner's original position and, for a non-zero skin size, its texture coordinate |
| Q2ToMesh.ClampReferenceFrame | Q2ModelToMesh.cpp:17-18 | a reference frame at or past the frame count becomes 0; others, negative ones included, are kept |
| Q2ToMesh.ClampReferenceFrameInRange | Q2ModelToMesh.cpp:17-18 | a non-negative reference frame ends up in range, and clamping twice is clamping once |
| Q2ToMesh.BuildFace | Q2ModelToMesh.cpp:114-122 | the face lists the second and third indices swapped |
| Q2ToMesh.ConvertPosition | Q2ModelToMesh.cpp:257-261 | each axis is byte × scale + translate, so with a non-zero scale the byte is recovered |
| Q2ToMesh.ConvertPositionInBox | Q2ModelToMesh.cpp:257-261 | with non-negative scales a byte position lies in the box from `translate` to `255 × scale + translate` |
| Q2ToMesh.TexCoord | Q2ModelToMesh.cpp:176-186 | the texture coordinate times the skin size gives the stored texel position |
| Q2ToMesh.PositionBuffer | Q2ModelToMesh.cpp:124-154 | new vertex `k` has the converted position of its pair's frame vertex |
| Q2ToMesh.TexCoordBuffer | Q2ModelToMesh.cpp:136-145 | new vertex `k` has its pair's texture coordinate |
| Q2ToMesh.KeyframePositions | Q2ModelToMesh.cpp:224-238 | a keyframe gives every new vertex its position in that frame |
| Q3ToMesh.FrameSlice | Q3ModelToMesh.cpp:97 | frame `f`'s vertices start at `f × numVertices`; the frame must exist, since no clamp is applied |
| Q3ToMesh.FramesTile | Q3ModelToMesh.cpp:95-97 | the frames' slices, one after the other, are the start of the vertex array |
| Q3ToMesh.SlicesDisjoint | Q3ModelToMesh.cpp:213-218 | two different (frame, vertex) slots never name the same array element |
| Q3ToMesh.ConvertPosition | Q3ModelToMesh.cpp:232-236 | each short is scaled by `MD3_SCALE` = 1/64 |
| Q3ToMesh.ConvertPositionRange | Q3ModelToMesh.cpp:232-236 | shorts map into [-512, 512), in order and one-to-one |
| Q3ToMesh.FramePositions | Q3ModelToMesh.cpp:205-227 | a keyframe gives vertex `k` the converted position of slot `k` of its frame's slice |
| Q3ToMesh.NormalBytesArithmetic | Q3ModelToMesh.cpp:244-245 | latitude is `(normal >> 8) & 0xFF` and longitude `normal & 0xFF`, both in 0..255, negative shorts included |
| Q3ToMesh.PackNormalRoundTrip | Q3ModelToMesh.cpp:244-245 | the two bytes determine the short and are recovered from it |
| Q3ToMesh.ByteAngle | Q3ModelToMesh.cpp:244-247 | a byte maps to an angle in [0, 6.2831853], byte 0 to 0 and byte 255 to the full turn |
| Q3ToMesh.ConvertNormalUnit | Q3ModelToMesh.cpp:242-251 | the decoded normal has unit length |
| Q3ToMesh.BuildAnimation | Q3ModelToMesh.cpp:162-203 | one track per mesh, in mesh order; each has the animation's keyframes |
| Q3ToMesh.TrackFramesInRange | Q3ModelToMesh.cpp:195-213 | every keyframe's slice exists iff the animation's frame range lies inside the mesh's frames |
| MainProgram.AfterDrive | Main.cpp:325-334 | without a ':' the path is kept; otherwise the result is exactly what follows the first ':' |
| MainProgram.ChangeToWorkingDir | Main.cpp:322-347 | a drive is set iff the path has a ':', numbered `toupper(first) - 'A' + 1`; the name holds no separator; the directory and name join back to the path |
| MainProgram.ChangeToWorkingDirBareName | Main.cpp:322-347 | a path with no ':' and no separator is returned unchanged |
| MainProgram.ChangeToWorkingDirJoin | Main.cpp:322-347 | splitting `X:dir/name` gives drive X, directory `dir` and name `name` |
| MainProgram.LastMeshResult | Main.cpp:372-389 | the result of the last md2mesh, md3mesh or md5mesh entry, false when there is none |
| MainProgram.ProcessConfig | Main.cpp:349-401 | success iff the file loaded, the root is "conversion" and the last mesh entry converted |
| MainProgram.LastMeshMasksEarlier | Main.cpp:374-389 | entries before the last mesh entry do not affect the result |

## Left out

- I/O is left out: the binary readers (`MD2Model.cpp`, `MD2Structure.cpp`, `MD3Structure.cpp`), the `sscanf` loops of `ReadMD5Model` and `ReadMD5Anim` beyond the version check and the shader-name copy, and the config-tree walk of `Main.cpp`.
- Output formatting is left out: the XML writers (`XmlWriter.cpp`, `MD3XmlWriter.cpp`, TinyXML) and `StringUtil::toString(float)`. The model returns the records that would be written.
- Single-precision rounding is left out. All arithmetic is exact over the reals.
- `sqrt`, `sin`, `cos`, `atan2` and `acos` are uninterpreted. The general slerp branch and the angle of `Quat_toAngleAxis` are therefore only bounded, not computed.
- `Quake::md2VertexNormals` is left out, because its table (`anorms.h`) is not part of this model. So is the normal half of the MD2 vertex.
- `Quake::convertCoordinate` is declared in `Quake.h` but defined nowhere in the source (`Quake.cpp` defines `convertVector`). The Quake 2 and Quake 3 positions and normals are modelled without the optional axis change.
- Q2ToMesh.ConvertPosition: models lines 259-261 only; the `convertCoordinate` call of lines 263-264 is left out for the reason above.
- Q3ToMesh.ConvertPosition: models lines 234-236 only; the `convertCoordinate` call of lines 238-239 is left out for the reason above.
- The Quake 3 submesh attributes (material and submesh names) are left out. They go through `Attributes::set(..., 64)`, and that class is not part of this model.
- The commented-out re-rooting block of `buildBones` (MD5ModelToMesh.cpp:254-268) is left out. Memory management (`FreeAnim`, `FreeModel`, `malloc`), progress printing, `printInfo` and `main` are left out too.
- The `chdir` and `_chdrive` side effects of `changeToWorkingDir` become the returned drive number and directory.
- `Animation.cpp`, the `Q3ModelToSkeleton` stub and `validate.php` are left out.
- `Md5Resample.ResampleAnimation` and `Md5Resample.ResampledFrame` read the held last frame where the code reads one past the end (see Findings). The code's reads are stated by `Md5Resample.FramesReadAsWritten`.
- Vector.Normalize: unit length is stated under the hypothesis `HasRoot(Length2(v))`, since the existence of real square roots is not derivable here.
- Quaternion.ComputeW: unit norm is stated under `HasRoot(1 - x² - y² - z²)`, for the same reason.
- Quaternion.Normalize: unit norm is stated under `HasRoot(Norm2(q))`, for the same reason.
- Quaternion.Slerp: outside the endpoint and nearly parallel cases, the result is built from the uninterpreted `sin` and `atan2` and no closed form is stated.
- Quaternion.Slerp: the debug check `assert(cosOmega < 1.1f)` (quaternion.cpp:158), which aborts the program on non-unit inputs, is not modelled; the model neither checks nor relies on it.
- Quaternion.ToAngleAxis: the direction of the axis is stated under `HasRoot(Norm2(q))`, and its angle is only known to be non-negative, for the reasons above.
- Quaternion.AngleAxisOfNormalized: the angle is only known to be non-negative, because `acos` is uninterpreted.
- Md5Normals.GenerateNormals: unit length is stated under `HasRoot`, and every accumulated normal must be non-zero. `vec_normalize` divides by zero for a vertex that no non-degenerate face uses.
- Q3ToMesh.ConvertNormalUnit: requires `sin² + cos² = 1` (`Pythagorean`) for both decoded angles.
- Md5Skeleton.BuildBones: a child bone's position is stated only for a parent with a unit orientation. The rotation is the angle-axis form of the relative rotation, with the angle uninterpreted.
- Md5Anim.InterpolateJoint: the orientation between the two endpoints is the uninterpreted slerp branch. The code never writes the `name` field of the output joint; the model's empty name stands in for whatever that memory holds.
- SkinWeights.BuildBoneAssignments: requires a non-zero total bias for every vertex with weights. The code divides by it unguarded, and with a zero total it writes NaN weights. Its own contract states the index range and the per-vertex and total count bounds; which assignments a vertex gets is stated by the `VertexAssignments` lemmas.
- MorphTrack.BuildMorphTrack: keyframe times are exact multiples of `1 / fps`. The code accumulates them by repeated float addition. A zero `fps` is excluded.
- Md5Mesh.PrepareMesh: `finalVertex` is declared afresh for each vertex and is taken to start as the zero vector; Ogre's `Vector3` default constructor, which decides that, is not part of this model.
- Md5Mesh.ShaderName: the model returns the copied characters; the NUL terminator of `mesh->shader`, which the loop never writes, is not modelled. The copy has no bound on the 256-character field (see Findings).
- Q2ToMesh.TexCoord: requires a non-zero skin width and height. Q2ModelToMesh.cpp:181-182 divides by them unguarded, and a zero skin size gives infinities or NaN, which reals cannot express.
- Q2ToMesh.TexCoordBuffer: inherits the non-zero skin size from `Q2ToMesh.TexCoord`; `Q2ToMesh.RestructuringKeepsCorners` states the texture-coordinate half only for a non-zero skin size.
- Md5Skeleton.KeyframeTime: requires a non-zero frame rate. With a file rate of 0 and no resampling, line 398 divides by zero in floating point and yields infinities or NaN, which reals cannot express.
- Md5Skeleton.TrackInputsValid: includes a non-zero frame rate for the same reason, so `Md5Skeleton.BuildTrack` does not cover a file rate of 0.
- Md5Resample.ResampleAnimation: requires a non-zero input rate, since line 488 divides by it; `Md5Resample.FinalAnim` reports that case as no result. It also requires a positive target rate, the only case `buildAnimation` calls it with (line 364).
- The MD2 submesh material name (`Q2ModelToMesh.cpp:85-89`) is left out as output naming, like the Quake 3 attributes.

## Findings

| source | as written | input that shows it | evidently intended | confidence | as-written member | corrected member |
|---|---|---|---|---|---|---|
| md5mesh.cpp:128-141 | copies every character after the first quote, up to the next quote or the end of the 512-character line, into the 256-character `shader` field with no bound | `shader "` then 300 letters, a closing quote, and padding to 512 characters | the copy stops at 255 characters, leaving room for the NUL | not executed | Md5Mesh.ShaderNameOverflows | Md5Mesh.StoredShaderName |
| MD5ModelToMesh.cpp:488-499 | output frame `i` interpolates input frames `floor(i * inRate / fps)` and the one after it | 2 frames at 10 fps resampled to 20 fps: 4 output frames, and output frame 2 reads input frame 2 of 0..1 | the second read held at the last input frame | not executed | Md5Resample.UpsamplingReadsPastEnd | Md5Resample.NextSourceFrameInRange |
