/** The skeletal animation helpers of md5anim.cpp: the model/animation
    compatibility check, building a frame's skeleton from the packed
    animated components, interpolating two skeletons, and stepping the
    frame counters. */
module Md5Anim {
  import opened RealMath
  import opened Vector
  import opened Quaternion
  import opened QuatAlgebra
  import opened Md5Model

  /** Joint `i` of the model and of the animation's first frame agree on
      parent index and name, for every joint. */
  predicate SkeletonsMatch(base: seq<Joint>, frame0: seq<Joint>) {
    |base| == |frame0| &&
    forall i :: 0 <= i < |base| ==>
      base[i].parent == frame0[i].parent && base[i].name == frame0[i].name
  }

  /** The outcome of `CheckAnimValidity`.  `MissingFrame` is an animation
      that declares joints but no frames: `ReadMD5Anim` allocates
      `skelFrames` only for a positive frame count, and the check reads
      `skelFrames[0]` all the same. */
  datatype Validity = Compatible | Incompatible | MissingFrame

  /** `CheckAnimValidity`: the joint counts must agree, and then every joint
      must match its counterpart in frame 0. */
  method CheckAnimValidity(mdl: Model, anim: Anim) returns (r: Validity)
    requires FramesWellFormed(anim)
    ensures r == MissingFrame <==>
      |mdl.baseSkel| == anim.numJoints && anim.numJoints > 0 && |anim.skelFrames| == 0
    ensures r == Compatible <==>
      |mdl.baseSkel| == anim.numJoints &&
      (anim.numJoints == 0 || (|anim.skelFrames| > 0 && SkeletonsMatch(mdl.baseSkel, anim.skelFrames[0])))
  {
    if |mdl.baseSkel| != anim.numJoints {
      return Incompatible;
    }
    if anim.numJoints == 0 {
      return Compatible;
    }
    if |anim.skelFrames| == 0 {
      return MissingFrame;
    }
    var frame0 := anim.skelFrames[0];
    var i := 0;
    while i < |mdl.baseSkel|
      invariant 0 <= i <= |mdl.baseSkel|
      invariant forall k :: 0 <= k < i ==>
        mdl.baseSkel[k].parent == frame0[k].parent && mdl.baseSkel[k].name == frame0[k].name
    {
      if mdl.baseSkel[i].parent != frame0[i].parent {
        return Incompatible;
      }
      if mdl.baseSkel[i].name != frame0[i].name {
        return Incompatible;
      }
      i := i + 1;
    }
    return Compatible;
  }

  /** An animation recorded from the model's own skeleton fits the model. */
  lemma SkeletonMatchesItself(skel: seq<Joint>)
    ensures SkeletonsMatch(skel, skel)
  {
  }

  /** `joint_info_t`: which of the six components Tx, Ty, Tz, Qx, Qy, Qz are
      animated (bits 0 to 5 of `flags`), and where they start in a frame's
      data. */
  datatype JointInfo = JointInfo(name: string, parent: int, flags: int, startIndex: int)

  /** `baseframe_joint_t`: the values of the components that are not
      animated. */
  datatype BaseFrameJoint = BaseFrameJoint(pos: Vec3, orient: Quat)

  /** A joint's pose before composition with its parent. */
  datatype Pose = Pose(pos: Vec3, orient: Quat)

  /** The masks 1, 2, 4, 8, 16, 32 tested for Tx, Ty, Tz, Qx, Qy, Qz. */
  const FlagMasks: seq<int> := [1, 2, 4, 8, 16, 32]

  /** `flags & FlagMasks[k]` is non-zero: bit `k` of the two's-complement
      representation of `flags` is set (floor division makes this hold for
      negative values too). */
  predicate FlagSet(flags: int, k: nat)
    requires k < 6
  {
    (flags / FlagMasks[k]) % 2 == 1
  }

  /** The number of animated components among the first `k`. */
  function Rank(flags: int, k: nat): (n: nat)
    requires k <= 6
    ensures n <= k
  {
    if k == 0 then 0 else Rank(flags, k - 1) + (if FlagSet(flags, k - 1) then 1 else 0)
  }

  lemma {:induction false} RankMonotone(flags: int, k: nat, m: nat)
    requires k <= m <= 6
    ensures Rank(flags, k) <= Rank(flags, m)
    decreases m - k
  {
    if k < m {
      RankMonotone(flags, k, m - 1);
    }
  }

  /** Component `k`: the next unread frame value when its flag is set,
      otherwise the base value. */
  function Component(flags: int, start: int, base: seq<real>, data: seq<real>, k: nat): (r: real)
    requires |base| == 6 && k < 6
    requires 0 <= start && start + Rank(flags, 6) <= |data|
  {
    RankMonotone(flags, k + 1, 6);
    if FlagSet(flags, k) then data[start + Rank(flags, k)] else base[k]
  }

  /** The six components, read the way `BuildFrameSkeleton` reads them: the
      flag bits are tested in order and each set bit consumes the next value
      from `start` on. */
  method ReadComponents(flags: int, start: int, base: seq<real>, data: seq<real>)
    returns (c: seq<real>, used: nat)
    requires |base| == 6
    requires 0 <= start && start + Rank(flags, 6) <= |data|
    ensures used == Rank(flags, 6)
    ensures |c| == 6
    ensures forall k :: 0 <= k < 6 ==> c[k] == Component(flags, start, base, data, k)
  {
    c := [];
    var j := 0;
    var k := 0;
    while k < 6
      invariant 0 <= k <= 6 && |c| == k
      invariant j == Rank(flags, k)
      invariant forall m :: 0 <= m < k ==> c[m] == Component(flags, start, base, data, m)
    {
      RankMonotone(flags, k + 1, 6);
      if (flags / FlagMasks[k]) % 2 == 1 {
        c := c + [data[start + j]];
        j := j + 1;
      } else {
        c := c + [base[k]];
      }
      k := k + 1;
    }
    used := j;
  }

  /** The animated local pose of one joint: positions and the vector part of
      the orientation come from the frame data where flagged, and w is
      recomputed with `Quat_computeW`. */
  ghost function AnimatedPose(info: JointInfo, base: BaseFrameJoint, data: seq<real>): (r: Pose)
    requires 0 <= info.startIndex && info.startIndex + Rank(info.flags, 6) <= |data|
  {
    var b := [base.pos.x, base.pos.y, base.pos.z, base.orient.x, base.orient.y, base.orient.z];
    var c := seq(6, k requires 0 <= k < 6 => Component(info.flags, info.startIndex, b, data, k));
    Pose(Vec3(c[0], c[1], c[2]), ComputeW(Quat(c[3], c[4], c[5], base.orient.w)))
  }

  /** What `BuildFrameSkeleton` needs of its inputs: one base joint per
      joint, parents before children, and every joint's components inside
      the frame data. */
  predicate FrameInputsValid(infos: seq<JointInfo>, baseFrame: seq<BaseFrameJoint>, data: seq<real>) {
    |infos| == |baseFrame| &&
    (forall i :: 0 <= i < |infos| ==> infos[i].parent < i) &&
    forall i :: 0 <= i < |infos| ==>
      0 <= infos[i].startIndex && infos[i].startIndex + Rank(infos[i].flags, 6) <= |data|
  }

  /** The absolute joint for `info`, given the joints already built: a root
      keeps its animated local pose, any other joint is placed relative to
      its parent. */
  ghost function FrameJoint(info: JointInfo, base: BaseFrameJoint, data: seq<real>, done: seq<Joint>)
    : (r: Joint)
    requires info.parent < |done|
    requires 0 <= info.startIndex && info.startIndex + Rank(info.flags, 6) <= |data|
    ensures r.name == info.name && r.parent == info.parent
    ensures var local := AnimatedPose(info, base, data);
      info.parent < 0 ==> r.pos == local.pos && r.orient == local.orient
    ensures var local := AnimatedPose(info, base, data);
      info.parent >= 0 ==>
        r.pos == Add(RotatePoint(done[info.parent].orient, local.pos), done[info.parent].pos) &&
        r.orient == Quaternion.Normalize(Mult(done[info.parent].orient, local.orient))
  {
    var local := AnimatedPose(info, base, data);
    if info.parent < 0 then Joint(info.name, info.parent, local.pos, local.orient)
    else
      var parent := done[info.parent];
      var rpos := RotatePoint(parent.orient, local.pos);
      Joint(info.name, info.parent, Add(rpos, parent.pos),
            Quaternion.Normalize(Mult(parent.orient, local.orient)))
  }

  /** `BuildFrameSkeleton`: joints are built in index order, each from the
      joints before it. */
  ghost function BuildFrameSkeleton(infos: seq<JointInfo>, baseFrame: seq<BaseFrameJoint>,
                                    data: seq<real>): (skel: seq<Joint>)
    requires FrameInputsValid(infos, baseFrame, data)
    ensures |skel| == |infos|
    ensures forall i :: 0 <= i < |skel| ==>
      skel[i] == FrameJoint(infos[i], baseFrame[i], data, skel[..i])
    decreases |infos|
  {
    if infos == [] then []
    else
      var n := |infos| - 1;
      assert FrameInputsValid(infos[..n], baseFrame[..n], data);
      var done := BuildFrameSkeleton(infos[..n], baseFrame[..n], data);
      var skel := done + [FrameJoint(infos[n], baseFrame[n], data, done)];
      assert skel[..n] == done;
      assert forall i :: 0 <= i < n ==> skel[..i] == done[..i];
      skel
  }

  /** A child's position is its parent's plus the parent's rotation of the
      animated offset; its orientation is the normalised product. */
  lemma BuildFrameSkeletonChild(infos: seq<JointInfo>, baseFrame: seq<BaseFrameJoint>,
                                data: seq<real>, i: nat)
    requires FrameInputsValid(infos, baseFrame, data)
    requires i < |infos| && infos[i].parent >= 0
    ensures var skel := BuildFrameSkeleton(infos, baseFrame, data);
      var local := AnimatedPose(infos[i], baseFrame[i], data);
      var parent := skel[infos[i].parent];
      skel[i].pos == Add(RotatePoint(parent.orient, local.pos), parent.pos) &&
      skel[i].orient == Quaternion.Normalize(Mult(parent.orient, local.orient))
  {
    var skel := BuildFrameSkeleton(infos, baseFrame, data);
    assert skel[..i][infos[i].parent] == skel[infos[i].parent];
  }

  /** With no animated components and only roots, every joint keeps its
      base position. */
  lemma UnanimatedRootsKeepBase(infos: seq<JointInfo>, baseFrame: seq<BaseFrameJoint>, data: seq<real>)
    requires FrameInputsValid(infos, baseFrame, data)
    requires forall i :: 0 <= i < |infos| ==> infos[i].flags == 0 && infos[i].parent < 0
    ensures var skel := BuildFrameSkeleton(infos, baseFrame, data);
      forall i :: 0 <= i < |skel| ==> skel[i].pos == baseFrame[i].pos
  {
  }

  /** One joint of `InterpolateSkeletons`: the parent index comes from the
      first skeleton, the position is interpolated linearly and the
      orientation spherically.  The name is not copied; the result carries
      an empty one. */
  ghost function InterpolateJoint(a: Joint, b: Joint, interp: real): (r: Joint)
    ensures r.parent == a.parent && r.name == ""
    ensures r.pos == Add(Scale(a.pos, 1.0 - interp), Scale(b.pos, interp))
    ensures r.orient == Slerp(a.orient, b.orient, interp)
    ensures interp == 0.0 ==> r.pos == a.pos && r.orient == a.orient
    ensures interp == 1.0 ==> r.pos == b.pos && r.orient == b.orient
  {
    LerpCoordinate(a.pos.x, b.pos.x, interp);
    LerpCoordinate(a.pos.y, b.pos.y, interp);
    LerpCoordinate(a.pos.z, b.pos.z, interp);
    var pos := Vec3(a.pos.x + interp * (b.pos.x - a.pos.x),
                    a.pos.y + interp * (b.pos.y - a.pos.y),
                    a.pos.z + interp * (b.pos.z - a.pos.z));
    var sa, sb := Scale(a.pos, 1.0 - interp), Scale(b.pos, interp);
    assert pos == Vec3(sa.x + sb.x, sa.y + sb.y, sa.z + sb.z);
    assert pos == Add(sa, sb);
    Joint("", a.parent, pos, Slerp(a.orient, b.orient, interp))
  }

  /** Stepping `t` of the way from `a` to `b` is the affine combination of
      the endpoints. */
  lemma LerpCoordinate(a: real, b: real, t: real)
    ensures a + t * (b - a) == a * (1.0 - t) + b * t
  {
  }

  /** `InterpolateSkeletons` over the first `numJoints` joints. */
  ghost function InterpolateSkeletons(skelA: seq<Joint>, skelB: seq<Joint>, numJoints: nat,
                                      interp: real): (out: seq<Joint>)
    requires numJoints <= |skelA| && numJoints <= |skelB|
    ensures |out| == numJoints
    ensures forall i :: 0 <= i < numJoints ==> out[i] == InterpolateJoint(skelA[i], skelB[i], interp)
  {
    seq(numJoints, i requires 0 <= i < numJoints => InterpolateJoint(skelA[i], skelB[i], interp))
  }

  /** Interpolating a skeleton with itself reproduces its poses when the
      orientations are unit quaternions. */
  lemma InterpolateSameSkeleton(skel: seq<Joint>, interp: real)
    requires forall i :: 0 <= i < |skel| ==> IsUnit(skel[i].orient)
    ensures var out := InterpolateSkeletons(skel, skel, |skel|, interp);
      forall i :: 0 <= i < |skel| ==>
        out[i].parent == skel[i].parent && out[i].pos == skel[i].pos && out[i].orient == skel[i].orient
  {
    forall i | 0 <= i < |skel|
      ensures Slerp(skel[i].orient, skel[i].orient, interp) == skel[i].orient
    {
      SlerpSame(skel[i].orient, interp);
    }
  }

  /** One step of a frame counter: forward by one, wrapping to 0 past the
      last frame. */
  function NextFrame(frame: int, numFrames: int): (r: int)
    ensures 0 <= frame < numFrames ==> 0 <= r < numFrames
    ensures 0 <= frame < numFrames - 1 ==> r == frame + 1
    ensures frame == numFrames - 1 ==> r == 0
  {
    if frame + 1 > numFrames - 1 then 0 else frame + 1
  }

  /** `Animate`: time accumulates until it reaches `maxTime`; then both
      frame counters step forward and the clock restarts. */
  function Animate(numFrames: int, info: AnimInfo, dt: real): (r: AnimInfo)
    ensures r.maxTime == info.maxTime
    ensures info.lastTime + dt < info.maxTime ==>
      r == info.(lastTime := info.lastTime + dt)
    ensures info.lastTime + dt >= info.maxTime ==>
      r.lastTime == 0.0 &&
      r.currFrame == NextFrame(info.currFrame, numFrames) &&
      r.nextFrame == NextFrame(info.nextFrame, numFrames)
    ensures 0 <= info.currFrame < numFrames && 0 <= info.nextFrame < numFrames ==>
      0 <= r.currFrame < numFrames && 0 <= r.nextFrame < numFrames
  {
    var lastTime := info.lastTime + dt;
    if lastTime >= info.maxTime then
      AnimInfo(NextFrame(info.currFrame, numFrames), NextFrame(info.nextFrame, numFrames),
               0.0, info.maxTime)
    else info.(lastTime := lastTime)
  }

  /** `k` frame steps move a counter in range `k` places round the cycle. */
  function StepFrames(frame: int, numFrames: int, k: nat): int {
    if k == 0 then frame else NextFrame(StepFrames(frame, numFrames, k - 1), numFrames)
  }

  lemma {:induction false} StepFramesWrap(frame: int, numFrames: int, k: nat)
    requires 0 <= frame < numFrames && k <= numFrames
    ensures StepFrames(frame, numFrames, k) ==
      if frame + k < numFrames then frame + k else frame + k - numFrames
  {
    if k > 0 {
      StepFramesWrap(frame, numFrames, k - 1);
    }
  }

  /** After `numFrames` steps the counter is back where it started. */
  lemma FrameCycle(frame: int, numFrames: int)
    requires 0 <= frame < numFrames
    ensures StepFrames(frame, numFrames, numFrames as nat) == frame
  {
    StepFramesWrap(frame, numFrames, numFrames as nat);
  }
}
