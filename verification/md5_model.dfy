/** The records of md5model.h.  Counts such as `num_joints` or `num_verts`
    are the lengths of the sequences; fixed-size character buffers are
    strings. */
module Md5Model {
  import opened Vector
  import opened Quaternion
  import opened OgreMesh

  /** `md5_joint_t`: a negative `parent` marks a root. */
  datatype Joint = Joint(name: string, parent: int, pos: Vec3, orient: Quat)

  /** `md5_vertex_t`: texture coordinates and a run of `count` weights
      starting at `start`. */
  datatype Vertex = Vertex(s: real, t: real, start: int, count: int)

  /** `md5_triangle_t`. */
  type Triangle = IndexTriangle

  /** `md5_weight_t`. */
  datatype Weight = Weight(joint: int, bias: real, pos: Vec3)

  /** `md5_bbox_t`. */
  datatype BBox = BBox(min: Vec3, max: Vec3)

  /** `md5_mesh_t`, without its drawing buffer. */
  datatype Mesh = Mesh(vertices: seq<Vertex>, triangles: seq<Triangle>,
                       weights: seq<Weight>, shader: string)

  /** `md5_model_t`. */
  datatype Model = Model(baseSkel: seq<Joint>, meshes: seq<Mesh>)

  /** `md5_anim_t`: one skeleton and one bounding box per frame. */
  datatype Anim = Anim(numJoints: int, frameRate: int,
                       skelFrames: seq<seq<Joint>>, bboxes: seq<BBox>)

  /** `anim_info_t`. */
  datatype AnimInfo = AnimInfo(currFrame: int, nextFrame: int, lastTime: real, maxTime: real)

  /** Every frame of the animation holds `numJoints` joints. */
  predicate FramesWellFormed(anim: Anim) {
    anim.numJoints >= 0 &&
    forall f :: 0 <= f < |anim.skelFrames| ==> |anim.skelFrames[f]| == anim.numJoints
  }

  /** Every parent index names an earlier joint, as the skeleton builders
      assume. */
  predicate ParentsPrecede(skel: seq<Joint>) {
    forall i :: 0 <= i < |skel| ==> skel[i].parent < i
  }

  /** The vertex's run of weights lies inside the weight array; a run with
      no weights always does. */
  predicate RunInRange(v: Vertex, weights: seq<Weight>) {
    v.count <= 0 || (0 <= v.start && v.start + v.count <= |weights|)
  }

  /** The weights of a vertex, in file order. */
  function Run(v: Vertex, weights: seq<Weight>): (r: seq<Weight>)
    requires RunInRange(v, weights)
    ensures |r| == if v.count <= 0 then 0 else v.count
    ensures forall j :: 0 <= j < |r| ==> r[j] == weights[v.start + j]
  {
    if v.count <= 0 then [] else weights[v.start..v.start + v.count]
  }
}
