/** The skeleton half of MD5ModelToMesh.cpp: bind-pose bones expressed
    relative to their parents, the bone hierarchy, the per-joint animation
    tracks, joint lookup by name and the coordinate conversion of a model
    and of an animation. */
module Md5Skeleton {
  import opened Wrappers
  import opened StringUtil
  import opened Vector
  import opened Quaternion
  import opened QuatAlgebra
  import opened Quake
  import opened Md5Model
  import opened Md5Anim
  import opened OgreMesh

  /** A rigid transform: a translation and a rotation. */
  datatype Transform = Transform(translate: Vec3, rotate: Quat)

  /** `jointDifference`: the pose of `to` seen from the frame of `from`,
      that is inv(from) * to and inv(from) applied to the offset between
      the two positions. */
  ghost function JointDifference(from: Joint, to: Joint): Transform {
    var inv := Inverse(from.orient);
    Transform(RotatePoint(inv, Subtract(to.pos, from.pos)), Mult(inv, to.orient))
  }

  /** Putting the difference back on top of `from` yields `to` again, when
      `from` has a unit orientation. */
  lemma JointDifferenceRoundTrip(from: Joint, to: Joint)
    requires IsUnit(from.orient)
    ensures var d := JointDifference(from, to);
      Mult(from.orient, d.rotate) == to.orient &&
      Add(RotatePoint(from.orient, d.translate), from.pos) == to.pos
  {
    var q := from.orient;
    var c := Conjugate(q);
    InverseOfUnit(q);
    assert Mult(q, Mult(c, to.orient)) == to.orient by {
      MultAssociative(q, c, to.orient);
      MultIdentity(to.orient);
    }
    var offset := Subtract(to.pos, from.pos);
    assert RotatePoint(q, RotatePoint(c, offset)) == offset by {
      assert IsUnit(c);
      RotatePointRoundTrip(c, offset);
      ConjugateInvolution(q);
    }
  }

  /** Rotating the origin leaves it at the origin, whatever the quaternion. */
  lemma RotatePointZero(q: Quat)
    ensures RotatePoint(q, Zero) == Zero
  {
    assert MultVec(q, Zero) == Quat(0.0, 0.0, 0.0, 0.0);
  }

  /** A joint seen from itself sits at the origin, unrotated. */
  lemma JointDifferenceSelf(j: Joint)
    ensures JointDifference(j, j).translate == Zero
    ensures IsUnit(j.orient) ==> JointDifference(j, j).rotate == Identity
  {
    assert Subtract(j.pos, j.pos) == Zero;
    RotatePointZero(Inverse(j.orient));
    if IsUnit(j.orient) {
      InverseOfUnit(j.orient);
    }
  }

  /** `animationDelta`: the keyframe of one joint, relative to its bind
      pose.  With both parents present it compares the animated joint, seen
      from its animated parent, with the bind-pose joint seen from its
      bind-pose parent; otherwise it compares the two joints directly. */
  ghost function AnimationDelta(baseParent: Option<Joint>, animParent: Option<Joint>,
                                baseJoint: Joint, animJoint: Joint): Transform
  {
    if baseParent.Some? && animParent.Some? then
      var rel := JointDifference(baseParent.value, baseJoint);
      var animParentInv := Inverse(animParent.value.orient);
      var q1 := Mult(animParentInv, animJoint.orient);
      var v2 := RotatePoint(animParentInv, Subtract(animJoint.pos, animParent.value.pos));
      Transform(Subtract(v2, rel.translate), Mult(Inverse(rel.rotate), q1))
    else
      Transform(Subtract(animJoint.pos, baseJoint.pos),
                Mult(Inverse(baseJoint.orient), animJoint.orient))
  }

  /** A joint (and parent) that sit in their bind pose give a keyframe
      with no translation, and no rotation when the orientations are unit
      quaternions. */
  lemma AnimationDeltaAtRest(baseParent: Option<Joint>, baseJoint: Joint)
    ensures AnimationDelta(baseParent, baseParent, baseJoint, baseJoint).translate == Zero
    ensures IsUnit(baseJoint.orient) && (baseParent.Some? ==> IsUnit(baseParent.value.orient)) ==>
      AnimationDelta(baseParent, baseParent, baseJoint, baseJoint).rotate == Identity
  {
    if baseParent.Some? {
      var rel := JointDifference(baseParent.value, baseJoint);
      assert Subtract(rel.translate, rel.translate) == Zero;
      if IsUnit(baseJoint.orient) && IsUnit(baseParent.value.orient) {
        RelativeRotationUnit(baseParent.value, baseJoint);
        InverseOfUnit(rel.rotate);
      }
    } else {
      assert Subtract(baseJoint.pos, baseJoint.pos) == Zero;
      if IsUnit(baseJoint.orient) {
        InverseOfUnit(baseJoint.orient);
      }
    }
  }

  /** The rotation between two unit orientations is itself a unit
      quaternion. */
  lemma RelativeRotationUnit(from: Joint, to: Joint)
    requires IsUnit(from.orient) && IsUnit(to.orient)
    ensures IsUnit(JointDifference(from, to).rotate)
  {
    InverseOfUnit(from.orient);
    Norm2Mult(Inverse(from.orient), to.orient);
  }

  /** A root keyframe applied on top of the bind pose gives the animated
      pose. */
  lemma AnimationDeltaRootReplays(baseJoint: Joint, animJoint: Joint)
    requires IsUnit(baseJoint.orient)
    ensures var d := AnimationDelta(None, None, baseJoint, animJoint);
      Add(d.translate, baseJoint.pos) == animJoint.pos &&
      Mult(baseJoint.orient, d.rotate) == animJoint.orient
  {
    var q := baseJoint.orient;
    InverseOfUnit(q);
    MultAssociative(q, Inverse(q), animJoint.orient);
    MultIdentity(animJoint.orient);
  }

  /** A child keyframe applied on top of the bind-pose local transform
      gives the animated local transform, the pose of the animated joint
      seen from its animated parent. */
  lemma AnimationDeltaChildReplays(baseParent: Joint, animParent: Joint,
                                   baseJoint: Joint, animJoint: Joint)
    requires IsUnit(baseParent.orient) && IsUnit(baseJoint.orient)
    ensures var d := AnimationDelta(Some(baseParent), Some(animParent), baseJoint, animJoint);
      var rel := JointDifference(baseParent, baseJoint);
      var local := JointDifference(animParent, animJoint);
      Add(d.translate, rel.translate) == local.translate &&
      Mult(rel.rotate, d.rotate) == local.rotate
  {
    var rel := JointDifference(baseParent, baseJoint);
    var local := JointDifference(animParent, animJoint);
    RelativeRotationUnit(baseParent, baseJoint);
    InverseOfUnit(rel.rotate);
    MultAssociative(rel.rotate, Inverse(rel.rotate), local.rotate);
    MultIdentity(local.rotate);
  }

  /** Every parent index is a root marker or names a joint of the
      skeleton, as the bone builders assume when they index the parent. */
  predicate ParentsInRange(skel: seq<Joint>) {
    forall i :: 0 <= i < |skel| ==> skel[i].parent < |skel|
  }

  /** The bind pose of joint `i` relative to its parent, as `buildBones`
      computes it: a root keeps its object-space pose. */
  ghost function BoneLocalPose(skel: seq<Joint>, i: nat): Transform
    requires i < |skel| && skel[i].parent < |skel|
  {
    var joint := skel[i];
    if joint.parent < 0 then Transform(joint.pos, joint.orient)
    else JointDifference(skel[joint.parent], joint)
  }

  /** Composing a bone's local pose with its parent's object-space pose, as
      `BuildFrameSkeleton` composes joints, gives the joint's object-space
      pose back. */
  lemma BoneLocalPoseComposes(skel: seq<Joint>, i: nat)
    requires i < |skel| && 0 <= skel[i].parent < |skel|
    requires IsUnit(skel[skel[i].parent].orient) && IsUnit(skel[i].orient)
    ensures var parent := skel[skel[i].parent];
      var local := BoneLocalPose(skel, i);
      Add(RotatePoint(parent.orient, local.translate), parent.pos) == skel[i].pos &&
      Quaternion.Normalize(Mult(parent.orient, local.rotate)) == skel[i].orient
  {
    JointDifferenceRoundTrip(skel[skel[i].parent], skel[i]);
    NormalizeUnit(skel[i].orient);
  }

  /** `buildBones`: one bone per joint, with the joint's index as id, its
      name without quotes, and its local pose with the rotation as angle
      and axis. */
  ghost function BuildBones(skel: seq<Joint>): (bones: seq<Bone>)
    requires ParentsInRange(skel)
    ensures |bones| == |skel|
    ensures forall i :: 0 <= i < |skel| ==>
      bones[i].id == i && bones[i].name == StripQuotes(skel[i].name)
    ensures forall i :: 0 <= i < |skel| && skel[i].parent < 0 ==>
      bones[i].pos == skel[i].pos && bones[i].rotation == ToAngleAxis(skel[i].orient)
    ensures forall i :: 0 <= i < |skel| && skel[i].parent >= 0 ==>
      Add(RotatePoint(skel[skel[i].parent].orient, bones[i].pos), skel[skel[i].parent].pos) == skel[i].pos
      || !IsUnit(skel[skel[i].parent].orient)
  {
    var bones := seq(|skel|, i requires 0 <= i < |skel| =>
      var local := BoneLocalPose(skel, i);
      Bone(i, StripQuotes(skel[i].name), local.translate, ToAngleAxis(local.rotate)));
    forall i | 0 <= i < |skel| && skel[i].parent >= 0 && IsUnit(skel[skel[i].parent].orient)
      ensures Add(RotatePoint(skel[skel[i].parent].orient, bones[i].pos), skel[skel[i].parent].pos) == skel[i].pos
    {
      JointDifferenceRoundTrip(skel[skel[i].parent], skel[i]);
    }
    bones
  }

  /** A root joint in the identity orientation becomes a bone with angle 0
      about the fallback x axis. */
  lemma BuildBonesUnrotatedRoot(skel: seq<Joint>, i: nat)
    requires ParentsInRange(skel) && i < |skel|
    requires skel[i].parent < 0 && skel[i].orient == Identity
    ensures BuildBones(skel)[i].rotation == AngleAxis(0.0, FallbackAxis)
  {
    ToAngleAxisIdentity();
  }

  /** The indices below `n` of the joints that have a parent, in increasing
      order. */
  function ChildIndices(skel: seq<Joint>, n: nat): (r: seq<nat>)
    requires n <= |skel|
    ensures forall k :: 0 <= k < |r| ==> r[k] < n && skel[r[k]].parent >= 0
    ensures forall k, l :: 0 <= k < l < |r| ==> r[k] < r[l]
  {
    if n == 0 then []
    else
      var prev := ChildIndices(skel, n - 1);
      if skel[n - 1].parent >= 0 then prev + [n - 1] else prev
  }

  /** Every joint below `n` with a parent is listed, so the list holds
      exactly the non-root joints. */
  lemma {:induction false} ChildIndicesComplete(skel: seq<Joint>, n: nat)
    requires n <= |skel|
    ensures forall i :: 0 <= i < n ==> (skel[i].parent >= 0 <==> i in ChildIndices(skel, n))
  {
    if n > 0 {
      ChildIndicesComplete(skel, n - 1);
    }
  }

  /** The `boneparent` element of joint `i`, naming both bones without
      quotes. */
  function HierarchyEdge(skel: seq<Joint>, i: nat): BoneParent
    requires i < |skel| && 0 <= skel[i].parent < |skel|
  {
    BoneParent(StripQuotes(skel[i].name), StripQuotes(skel[skel[i].parent].name))
  }

  /** `buildBoneHierarchy`: one edge for each joint with a parent, in joint
      order, and none for the roots. */
  method BuildBoneHierarchy(skel: seq<Joint>) returns (edges: seq<BoneParent>)
    requires ParentsInRange(skel)
    ensures var children := ChildIndices(skel, |skel|);
      |edges| == |children| &&
      forall k :: 0 <= k < |edges| ==> edges[k] == HierarchyEdge(skel, children[k])
  {
    edges := [];
    ghost var children: seq<nat> := [];
    var i := 0;
    while i < |skel|
      invariant 0 <= i <= |skel|
      invariant children == ChildIndices(skel, i)
      invariant EdgesMatch(skel, children, edges)
    {
      if skel[i].parent >= 0 {
        EdgesMatchSnoc(skel, children, edges, i);
        edges := edges + [HierarchyEdge(skel, i)];
        children := children + [i];
      }
      i := i + 1;
    }
  }

  /** Edge `k` is the edge of the `k`-th joint of `children`. */
  predicate EdgesMatch(skel: seq<Joint>, children: seq<nat>, edges: seq<BoneParent>) {
    |edges| == |children| &&
    forall k :: 0 <= k < |edges| ==>
      children[k] < |skel| && 0 <= skel[children[k]].parent < |skel| &&
      edges[k] == HierarchyEdge(skel, children[k])
  }

  lemma EdgesMatchSnoc(skel: seq<Joint>, children: seq<nat>, edges: seq<BoneParent>, i: nat)
    requires EdgesMatch(skel, children, edges)
    requires i < |skel| && 0 <= skel[i].parent < |skel|
    ensures EdgesMatch(skel, children + [i], edges + [HierarchyEdge(skel, i)])
  {
  }

  /** `findJoint`: the first joint whose name, without quotes, is `name`,
      or none. */
  method FindJoint(skel: seq<Joint>, name: string) returns (r: Option<nat>)
    ensures r.None? <==> forall i :: 0 <= i < |skel| ==> StripQuotes(skel[i].name) != name
    ensures r.Some? ==> r.value < |skel| && StripQuotes(skel[r.value].name) == name
    ensures r.Some? ==> forall i :: 0 <= i < r.value ==> StripQuotes(skel[i].name) != name
  {
    var i := 0;
    while i < |skel|
      invariant 0 <= i <= |skel|
      invariant forall k :: 0 <= k < i ==> StripQuotes(skel[k].name) != name
    {
      if StripQuotes(skel[i].name) == name {
        return Some(i);
      }
      i := i + 1;
    }
    return None;
  }

  /** The time of keyframe `i`: `i / frameRate` seconds. */
  function KeyframeTime(i: int, frameRate: int): real
    requires frameRate != 0
  {
    i as real / frameRate as real
  }

  /** At a positive frame rate the first keyframe is at 0, the times grow
      strictly, and frame `i` is `frameRate` per second. */
  lemma KeyframeTimes(frameRate: int, i: int, j: int)
    requires frameRate > 0
    ensures KeyframeTime(0, frameRate) == 0.0
    ensures KeyframeTime(i, frameRate) * frameRate as real == i as real
    ensures i < j ==> KeyframeTime(i, frameRate) < KeyframeTime(j, frameRate)
  {
    var f := frameRate as real;
    if i < j {
      assert KeyframeTime(j, frameRate) - KeyframeTime(i, frameRate) == (j - i) as real / f;
    }
  }

  /** What `buildTrack` needs: the joint and its parent exist in the model
      and in every frame. */
  predicate TrackInputsValid(mdl: Model, anim: Anim, jointIndex: nat) {
    jointIndex < |mdl.baseSkel| && mdl.baseSkel[jointIndex].parent < |mdl.baseSkel| &&
    anim.frameRate != 0 &&
    forall f :: 0 <= f < |anim.skelFrames| ==>
      jointIndex < |anim.skelFrames[f]| && mdl.baseSkel[jointIndex].parent < |anim.skelFrames[f]|
  }

  /** The keyframe transform of joint `jointIndex` in frame `f`: the parents
      take part only when the bind-pose joint has one. */
  ghost function FrameDelta(mdl: Model, anim: Anim, jointIndex: nat, f: nat): Transform
    requires TrackInputsValid(mdl, anim, jointIndex) && f < |anim.skelFrames|
  {
    var baseJoint := mdl.baseSkel[jointIndex];
    var frame := anim.skelFrames[f];
    var p := baseJoint.parent;
    if p >= 0 then AnimationDelta(Some(mdl.baseSkel[p]), Some(frame[p]), baseJoint, frame[jointIndex])
    else AnimationDelta(None, None, baseJoint, frame[jointIndex])
  }

  /** `buildTrack`: one keyframe per frame of the animation, at time
      `i / frameRate`, for the bone named after the joint. */
  ghost function BuildTrack(mdl: Model, anim: Anim, jointIndex: nat): (t: Track)
    requires TrackInputsValid(mdl, anim, jointIndex)
    ensures t.bone == StripQuotes(mdl.baseSkel[jointIndex].name)
    ensures |t.keyframes| == |anim.skelFrames|
    ensures forall i :: 0 <= i < |t.keyframes| ==>
      t.keyframes[i].time == KeyframeTime(i, anim.frameRate) &&
      t.keyframes[i].translate == FrameDelta(mdl, anim, jointIndex, i).translate &&
      t.keyframes[i].rotation == ToAngleAxis(FrameDelta(mdl, anim, jointIndex, i).rotate)
  {
    Track(StripQuotes(mdl.baseSkel[jointIndex].name),
          seq(|anim.skelFrames|, i requires 0 <= i < |anim.skelFrames| =>
            var d := FrameDelta(mdl, anim, jointIndex, i);
            Keyframe(KeyframeTime(i, anim.frameRate), d.translate, ToAngleAxis(d.rotate))))
  }

  /** The frames in which joint `jointIndex` and its parent sit in their
      bind pose. */
  predicate AtRest(mdl: Model, anim: Anim, jointIndex: nat)
    requires TrackInputsValid(mdl, anim, jointIndex)
  {
    forall f :: 0 <= f < |anim.skelFrames| ==>
      anim.skelFrames[f][jointIndex] == mdl.baseSkel[jointIndex] &&
      (mdl.baseSkel[jointIndex].parent >= 0 ==>
        anim.skelFrames[f][mdl.baseSkel[jointIndex].parent] == mdl.baseSkel[mdl.baseSkel[jointIndex].parent])
  }

  /** A joint that never leaves its bind pose (nor its parent) gives a track
      of keyframes without translation. */
  lemma BuildTrackAtRest(mdl: Model, anim: Anim, jointIndex: nat)
    requires TrackInputsValid(mdl, anim, jointIndex) && AtRest(mdl, anim, jointIndex)
    ensures var t := BuildTrack(mdl, anim, jointIndex);
      forall i :: 0 <= i < |t.keyframes| ==> t.keyframes[i].translate == Zero
  {
    var baseJoint := mdl.baseSkel[jointIndex];
    var p := baseJoint.parent;
    forall f | 0 <= f < |anim.skelFrames|
      ensures FrameDelta(mdl, anim, jointIndex, f).translate == Zero
    {
      if p >= 0 {
        AnimationDeltaAtRest(Some(mdl.baseSkel[p]), baseJoint);
      } else {
        AnimationDeltaAtRest(None, baseJoint);
      }
    }
  }

  /** When, in addition, the bind-pose orientations are unit quaternions,
      every keyframe is the zero rotation about x. */
  lemma BuildTrackAtRestUnrotated(mdl: Model, anim: Anim, jointIndex: nat)
    requires TrackInputsValid(mdl, anim, jointIndex) && AtRest(mdl, anim, jointIndex)
    requires IsUnit(mdl.baseSkel[jointIndex].orient)
    requires mdl.baseSkel[jointIndex].parent >= 0 ==>
      IsUnit(mdl.baseSkel[mdl.baseSkel[jointIndex].parent].orient)
    ensures var t := BuildTrack(mdl, anim, jointIndex);
      forall i :: 0 <= i < |t.keyframes| ==> t.keyframes[i].rotation == AngleAxis(0.0, FallbackAxis)
  {
    var t := BuildTrack(mdl, anim, jointIndex);
    forall i | 0 <= i < |t.keyframes|
      ensures t.keyframes[i].rotation == AngleAxis(0.0, FallbackAxis)
    {
      KeyframeUnrotated(mdl, anim, jointIndex, i);
    }
  }

  lemma KeyframeUnrotated(mdl: Model, anim: Anim, jointIndex: nat, i: nat)
    requires TrackInputsValid(mdl, anim, jointIndex) && AtRest(mdl, anim, jointIndex)
    requires i < |anim.skelFrames|
    requires IsUnit(mdl.baseSkel[jointIndex].orient)
    requires mdl.baseSkel[jointIndex].parent >= 0 ==>
      IsUnit(mdl.baseSkel[mdl.baseSkel[jointIndex].parent].orient)
    ensures i < |BuildTrack(mdl, anim, jointIndex).keyframes|
    ensures BuildTrack(mdl, anim, jointIndex).keyframes[i].rotation == AngleAxis(0.0, FallbackAxis)
  {
    FrameRotationAtRest(mdl, anim, jointIndex, i);
    ToAngleAxisIdentity();
  }

  lemma FrameRotationAtRest(mdl: Model, anim: Anim, jointIndex: nat, f: nat)
    requires TrackInputsValid(mdl, anim, jointIndex) && AtRest(mdl, anim, jointIndex)
    requires f < |anim.skelFrames|
    requires IsUnit(mdl.baseSkel[jointIndex].orient)
    requires mdl.baseSkel[jointIndex].parent >= 0 ==>
      IsUnit(mdl.baseSkel[mdl.baseSkel[jointIndex].parent].orient)
    ensures FrameDelta(mdl, anim, jointIndex, f).rotate == Identity
  {
    var baseJoint := mdl.baseSkel[jointIndex];
    var p := baseJoint.parent;
    var baseParent := if p >= 0 then Some(mdl.baseSkel[p]) else None;
    FrameDeltaAtRest(mdl, anim, jointIndex, f);
    AnimationDeltaAtRest(baseParent, baseJoint);
  }

  /** In a frame where the joint and its parent sit in their bind pose,
      the keyframe transform is the bind pose's difference with itself. */
  lemma FrameDeltaAtRest(mdl: Model, anim: Anim, jointIndex: nat, f: nat)
    requires TrackInputsValid(mdl, anim, jointIndex) && AtRest(mdl, anim, jointIndex)
    requires f < |anim.skelFrames|
    ensures var baseJoint := mdl.baseSkel[jointIndex];
      var baseParent := if baseJoint.parent >= 0 then Some(mdl.baseSkel[baseJoint.parent]) else None;
      FrameDelta(mdl, anim, jointIndex, f) == AnimationDelta(baseParent, baseParent, baseJoint, baseJoint)
  {
    var frame := anim.skelFrames[f];
    assert frame[jointIndex] == mdl.baseSkel[jointIndex];
  }

  /** `Quake::convertVector` and `Quake::convertQuaternion` applied to one
      joint. */
  function ConvertJoint(j: Joint): (r: Joint)
    ensures r.name == j.name && r.parent == j.parent
    ensures UnconvertVector(r.pos) == j.pos
    ensures r.orient == ConvertQuaternion(j.orient)
  {
    ConvertVectorRoundTrip(j.pos);
    j.(pos := ConvertVector(j.pos), orient := ConvertQuaternion(j.orient))
  }

  function ConvertSkeleton(skel: seq<Joint>): (r: seq<Joint>)
    ensures |r| == |skel|
    ensures forall i :: 0 <= i < |skel| ==> r[i] == ConvertJoint(skel[i])
  {
    seq(|skel|, i requires 0 <= i < |skel| => ConvertJoint(skel[i]))
  }

  /** `convertCoordSystem` for a model: every joint of the bind pose. */
  function ConvertModel(mdl: Model): (r: Model)
    ensures r.meshes == mdl.meshes
    ensures r.baseSkel == ConvertSkeleton(mdl.baseSkel)
  {
    mdl.(baseSkel := ConvertSkeleton(mdl.baseSkel))
  }

  function ConvertBBox(b: BBox): BBox {
    BBox(ConvertVector(b.min), ConvertVector(b.max))
  }

  /** `convertCoordSystem` for an animation: every joint of every frame,
      and the bounding box of every frame. */
  function ConvertAnim(anim: Anim): (r: Anim)
    requires |anim.bboxes| >= |anim.skelFrames|
    ensures r.numJoints == anim.numJoints && r.frameRate == anim.frameRate
    ensures |r.skelFrames| == |anim.skelFrames| && |r.bboxes| == |anim.bboxes|
    ensures forall f :: 0 <= f < |anim.skelFrames| ==>
      r.skelFrames[f] == ConvertSkeleton(anim.skelFrames[f]) && r.bboxes[f] == ConvertBBox(anim.bboxes[f])
    ensures forall f :: |anim.skelFrames| <= f < |anim.bboxes| ==> r.bboxes[f] == anim.bboxes[f]
  {
    var frames := seq(|anim.skelFrames|, f requires 0 <= f < |anim.skelFrames| =>
      ConvertSkeleton(anim.skelFrames[f]));
    var boxes := seq(|anim.bboxes|, f requires 0 <= f < |anim.bboxes| =>
      if f < |anim.skelFrames| then ConvertBBox(anim.bboxes[f]) else anim.bboxes[f]);
    anim.(skelFrames := frames, bboxes := boxes)
  }

  /** The conversion changes neither names nor parents, so an animation
      fits a model after conversion exactly when it did before; converting
      the model before the compatibility check, as the converter does,
      makes no difference. */
  lemma ConvertKeepsCompatibility(base: seq<Joint>, frame0: seq<Joint>)
    ensures SkeletonsMatch(ConvertSkeleton(base), ConvertSkeleton(frame0)) <==> SkeletonsMatch(base, frame0)
    ensures SkeletonsMatch(ConvertSkeleton(base), frame0) <==> SkeletonsMatch(base, frame0)
  {
  }

  /** The converted animation still has the same shape. */
  lemma ConvertAnimWellFormed(anim: Anim)
    requires |anim.bboxes| >= |anim.skelFrames|
    ensures FramesWellFormed(ConvertAnim(anim)) <==> FramesWellFormed(anim)
  {
  }

  /** `isMD5Mesh` and `isMD5Anim`: the lower-cased extension decides. */
  predicate IsMD5Mesh(filename: string) {
    GetExtension(filename) == "md5mesh"
  }

  predicate IsMD5Anim(filename: string) {
    GetExtension(filename) == "md5anim"
  }

  /** Both tests ignore case. */
  lemma FileTypeTestsIgnoreCase(filename: string)
    ensures IsMD5Mesh(Lowercase(filename)) == IsMD5Mesh(filename)
    ensures IsMD5Anim(Lowercase(filename)) == IsMD5Anim(filename)
  {
    GetExtensionIgnoresCase(filename);
  }

  /** A name ending in `.md5mesh` is a mesh and not an animation. */
  lemma MeshFileName(stem: string)
    ensures IsMD5Mesh(stem + ".md5mesh") && !IsMD5Anim(stem + ".md5mesh")
  {
    var name := stem + ".md5mesh";
    assert name == stem + "." + "md5mesh";
    ExtensionOfSuffix(stem, "md5mesh");
    ExtensionsAreLower();
  }

  /** A name ending in `.md5anim` is an animation and not a mesh. */
  lemma AnimFileName(stem: string)
    ensures IsMD5Anim(stem + ".md5anim") && !IsMD5Mesh(stem + ".md5anim")
  {
    var name := stem + ".md5anim";
    assert name == stem + "." + "md5anim";
    ExtensionOfSuffix(stem, "md5anim");
    ExtensionsAreLower();
  }

  /** The two extensions are distinct and already lower case. */
  lemma ExtensionsAreLower()
    ensures Lowercase("md5mesh") == "md5mesh" && Lowercase("md5anim") == "md5anim"
    ensures "md5mesh" != "md5anim"
  {
    assert "md5mesh"[3] != "md5anim"[3];
    LowercaseOfLower("md5mesh");
    LowercaseOfLower("md5anim");
  }

  lemma LowercaseOfLower(s: string)
    requires forall i :: 0 <= i < |s| ==> !IsUpper(s[i])
    ensures Lowercase(s) == s
  {
  }
}
