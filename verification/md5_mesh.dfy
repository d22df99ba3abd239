/** The parts of md5mesh.cpp that are computation rather than parsing: the
    version check and the shader-name scan of `ReadMD5Model`, and the
    weighted vertex posing of `PrepareMesh`. */
module Md5Mesh {
  import opened Wrappers
  import opened StringUtil
  import opened Vector
  import opened Quaternion
  import opened QuatAlgebra
  import opened Md5Model

  /** The only `MD5Version` the reader accepts. */
  const SupportedVersion := 10

  /** A line of an md5mesh file as far as the version check sees it. */
  datatype HeaderLine = VersionLine(version: int) | OtherLine

  /** `ReadMD5Model` gives up at the first version line that does not say 10
      and otherwise goes on reading. */
  method CheckVersion(lines: seq<HeaderLine>) returns (ok: bool)
    ensures ok <==> forall i :: 0 <= i < |lines| && lines[i].VersionLine? ==>
      lines[i].version == SupportedVersion
  {
    var i := 0;
    while i < |lines|
      invariant 0 <= i <= |lines|
      invariant forall k :: 0 <= k < i && lines[k].VersionLine? ==> lines[k].version == SupportedVersion
    {
      if lines[i].VersionLine? && lines[i].version != SupportedVersion {
        return false;
      }
      i := i + 1;
    }
    return true;
  }

  /** The size of the line buffer `buff`. */
  const LineSize := 512

  /** The shader name a line buffer yields: what follows its first '"', up
      to the second '"', or to the end of the buffer when there is no second
      one. */
  function ShaderName(buff: string): (r: string)
    ensures '"' !in r
    ensures |r| < |buff| || buff == []
  {
    match FindFirst(buff, '"')
    case None => []
    case Some(p) =>
      var rest := buff[p + 1..];
      match FindFirst(rest, '"')
      case None => rest
      case Some(q) => rest[..q]
  }

  /** The copy loop of `ReadMD5Model` on a line holding "shader ": it counts
      quotes and copies every other character seen while exactly one quote
      has gone by, stopping at the second quote or the end of the buffer. */
  method ExtractShader(buff: string) returns (shader: string)
    requires |buff| == LineSize
    ensures shader == ShaderName(buff)
  {
    shader := [];
    var quote := 0;
    var i := 0;
    ghost var first := 0;
    while i < |buff| && quote < 2
      invariant 0 <= i <= |buff| && 0 <= quote <= 2
      invariant quote == 0 ==> '"' !in buff[..i] && shader == []
      invariant quote >= 1 ==> first < i && buff[first] == '"' && '"' !in buff[..first]
      invariant quote == 1 ==> '"' !in buff[first + 1..i] && shader == buff[first + 1..i]
      invariant quote == 2 ==> first + 1 < i && buff[i - 1] == '"'
      invariant quote == 2 ==> '"' !in buff[first + 1..i - 1] && shader == buff[first + 1..i - 1]
    {
      if buff[i] == '"' {
        if quote == 0 {
          first := i;
        }
        quote := quote + 1;
      }
      if quote == 1 && buff[i] != '"' {
        shader := shader + [buff[i]];
      }
      assert buff[..i + 1] == buff[..i] + [buff[i]];
      assert first < i ==> buff[first + 1..i + 1] == buff[first + 1..i] + [buff[i]];
      i := i + 1;
    }
    if quote == 0 {
      assert buff[..i] == buff;
    } else if quote == 1 {
      ShaderAfterOneQuote(buff, first);
    } else {
      ShaderBetweenQuotes(buff, first, i - 1);
    }
  }

  lemma ShaderAfterOneQuote(buff: string, first: nat)
    requires first < |buff| && buff[first] == '"'
    requires '"' !in buff[..first] && '"' !in buff[first + 1..]
    ensures ShaderName(buff) == buff[first + 1..]
  {
    FindFirstAt(buff, '"', first);
  }

  lemma ShaderBetweenQuotes(buff: string, first: nat, second: nat)
    requires first < second < |buff| && buff[first] == '"' && buff[second] == '"'
    requires '"' !in buff[..first] && '"' !in buff[first + 1..second]
    ensures ShaderName(buff) == buff[first + 1..second]
  {
    FindFirstAt(buff, '"', first);
    var rest := buff[first + 1..];
    assert rest[..second - first - 1] == buff[first + 1..second];
    FindFirstAt(rest, '"', second - first - 1);
  }

  /** A line `... "name" ...` yields exactly `name`, without the quotes. */
  lemma ShaderOfQuotedName(pre: string, name: string, post: string)
    requires '"' !in pre && '"' !in name
    ensures ShaderName(pre + ['"'] + name + ['"'] + post) == name
  {
    var buff := pre + ['"'] + name + ['"'] + post;
    assert buff[..|pre|] == pre;
    assert buff[|pre| + 1..|pre| + 1 + |name|] == name;
    ShaderBetweenQuotes(buff, |pre|, |pre| + 1 + |name|);
  }

  /** The size of `md5_mesh_t::shader`. */
  const ShaderSize := 256

  /** The copy loop has no bound on the destination index: a line holding
      a 300-character quoted name fills the 512-character line buffer
      without trouble, and all 300 characters are copied into the
      256-character `shader` field. */
  lemma ShaderNameOverflows()
    ensures var buff := "shader " + ['"'] + seq(300, k => 'a') + ['"'] + seq(LineSize - 309, k => ' ');
      |buff| == LineSize && |ShaderName(buff)| >= ShaderSize
  {
    var name := seq(300, k => 'a');
    assert '"' !in name by {
      forall k | 0 <= k < |name|
        ensures name[k] != '"'
      {
      }
    }
    ShaderOfQuotedName("shader ", name, seq(LineSize - 309, k => ' '));
  }

  /** The name as the `shader` field can hold it: at most 255 characters,
      leaving room for the terminating NUL. */
  function StoredShaderName(buff: string): (r: string)
    ensures |r| < ShaderSize && '"' !in r
    ensures r <= ShaderName(buff)
    ensures |ShaderName(buff)| < ShaderSize ==> r == ShaderName(buff)
  {
    var name := ShaderName(buff);
    if |name| < ShaderSize then name
    else
      assert forall k :: 0 <= k < ShaderSize - 1 ==> name[..ShaderSize - 1][k] == name[k];
      name[..ShaderSize - 1]
  }

  /** A quoted name that fits is stored whole; a longer one keeps its
      first 255 characters. */
  lemma StoredShaderNameOfQuotedName(pre: string, name: string, post: string)
    requires '"' !in pre && '"' !in name
    ensures var stored := StoredShaderName(pre + ['"'] + name + ['"'] + post);
      (|name| < ShaderSize ==> stored == name) &&
      (|name| >= ShaderSize ==> stored == name[..ShaderSize - 1])
  {
    ShaderOfQuotedName(pre, name, post);
  }

  /** The run of `n` weights at `start` exists and every weight in it names
      a joint of the skeleton; an empty run asks nothing. */
  predicate RunValid(weights: seq<Weight>, skel: seq<Joint>, start: int, n: int) {
    n <= 0 ||
    (0 <= start && start + n <= |weights| &&
     forall k :: start <= k < start + n ==> 0 <= weights[k].joint < |skel|)
  }

  predicate WeightsValid(mesh: Mesh, skel: seq<Joint>) {
    forall i :: 0 <= i < |mesh.vertices| ==> RunValid(mesh.weights, skel, mesh.vertices[i].start, mesh.vertices[i].count)
  }

  /** Where one weight puts the vertex: the weight's offset rotated by its
      joint's orientation and moved to the joint's position. */
  ghost function WeightPoint(w: Weight, skel: seq<Joint>): Vec3
    requires 0 <= w.joint < |skel|
  {
    Add(skel[w.joint].pos, RotatePoint(skel[w.joint].orient, w.pos))
  }

  /** The sum of the first `n` weighted points of the run at `start`, in the
      order `PrepareMesh` adds them. */
  ghost function WeightedSum(weights: seq<Weight>, skel: seq<Joint>, start: int, n: int): (r: Vec3)
    requires RunValid(weights, skel, start, n)
    ensures n <= 0 ==> r == Zero
    decreases n
  {
    if n <= 0 then Zero
    else
      var w := weights[start + n - 1];
      Add(WeightedSum(weights, skel, start, n - 1), Scale(WeightPoint(w, skel), w.bias))
  }

  /** The sum of the biases of the first `n` weights of the run at `start`. */
  function BiasSum(weights: seq<Weight>, start: int, n: int): real
    requires n <= 0 || (0 <= start && start + n <= |weights|)
    decreases n
  {
    if n <= 0 then 0.0 else BiasSum(weights, start, n - 1) + weights[start + n - 1].bias
  }

  /** `PrepareMesh`: each vertex is the bias-weighted sum of the points its
      weights give, starting from zero. */
  ghost function PrepareMesh(mesh: Mesh, skel: seq<Joint>): (positions: seq<Vec3>)
    requires WeightsValid(mesh, skel)
    ensures |positions| == |mesh.vertices|
    ensures forall i :: 0 <= i < |positions| && mesh.vertices[i].count <= 0 ==> positions[i] == Zero
  {
    seq(|mesh.vertices|, i requires 0 <= i < |mesh.vertices| =>
      var v := mesh.vertices[i];
      WeightedSum(mesh.weights, skel, v.start, v.count))
  }

  /** When every weight of a run puts the vertex at the same point `p`, the
      sum is `p` scaled by the total bias. */
  lemma {:induction false} WeightedSumOfCommonPoint(weights: seq<Weight>, skel: seq<Joint>,
                                                    start: int, n: int, p: Vec3)
    requires RunValid(weights, skel, start, n)
    requires forall k :: start <= k < start + n ==> WeightPoint(weights[k], skel) == p
    ensures WeightedSum(weights, skel, start, n) == Scale(p, BiasSum(weights, start, n))
    decreases n
  {
    if n > 0 {
      WeightedSumOfCommonPoint(weights, skel, start, n - 1, p);
      var w := weights[start + n - 1];
      assert WeightPoint(w, skel) == p;
      ScaleAdd(p, BiasSum(weights, start, n - 1), w.bias);
    }
  }

  /** Biases that sum to 1, as the file format intends, make agreeing
      weights a partition of unity: the vertex lands on their common point. */
  lemma PrepareMeshAgreeingWeights(mesh: Mesh, skel: seq<Joint>, i: nat, p: Vec3)
    requires WeightsValid(mesh, skel) && i < |mesh.vertices|
    requires var v := mesh.vertices[i];
      v.count > 0 && BiasSum(mesh.weights, v.start, v.count) == 1.0 &&
      forall k :: v.start <= k < v.start + v.count ==> WeightPoint(mesh.weights[k], skel) == p
    ensures PrepareMesh(mesh, skel)[i] == p
  {
    var v := mesh.vertices[i];
    WeightedSumOfCommonPoint(mesh.weights, skel, v.start, v.count, p);
  }

  /** A vertex with a single weight of bias 1 sits exactly where that weight
      puts it. */
  lemma PrepareMeshSingleWeight(mesh: Mesh, skel: seq<Joint>, i: nat)
    requires WeightsValid(mesh, skel) && i < |mesh.vertices|
    requires mesh.vertices[i].count == 1 && 0 <= mesh.vertices[i].start < |mesh.weights|
    requires mesh.weights[mesh.vertices[i].start].bias == 1.0
    ensures var w := mesh.weights[mesh.vertices[i].start];
      0 <= w.joint < |skel| && PrepareMesh(mesh, skel)[i] == WeightPoint(w, skel)
  {
    var v := mesh.vertices[i];
    assert RunValid(mesh.weights, skel, v.start, v.count);
    assert PrepareMesh(mesh, skel)[i] == WeightedSum(mesh.weights, skel, v.start, 1);
  }

  /** On a joint with the identity orientation a weight only translates:
      together with the lemma above, a single weight of bias 1 on such a
      joint puts the vertex at the joint's position plus the offset. */
  lemma WeightPointUnrotated(w: Weight, skel: seq<Joint>)
    requires 0 <= w.joint < |skel| && skel[w.joint].orient == Identity
    ensures WeightPoint(w, skel) == Add(skel[w.joint].pos, w.pos)
  {
    RotatePointIdentity(w.pos);
  }
}
