/** The morph animations of the Quake 2 and Quake 3 converters
    (`buildAnimation` and `buildTrack` of Q2ModelToMesh.cpp and
    Q3ModelToMesh.cpp): a run of consecutive model frames shown one after
    the other at a fixed rate. */
module MorphTrack {

  /** An entry of the animation list: a name, the first frame, the number
      of frames and the playback rate. */
  datatype AnimationDef = AnimationDef(name: string, startFrame: int, numFrames: int, fps: int)

  /** A morph keyframe: the model frame it shows and when. */
  datatype MorphKeyframe = MorphKeyframe(frame: int, time: real)

  /** The `length` attribute: the number of frames over the rate. */
  function AnimationLength(anim: AnimationDef): real
    requires anim.fps != 0
  {
    anim.numFrames as real / anim.fps as real
  }

  /** `buildTrack`: keyframe `i` shows frame `startFrame + i`; the time
      starts at 0 and grows by `1 / fps` per keyframe. */
  method BuildMorphTrack(startFrame: int, numFrames: int, fps: int) returns (keys: seq<MorphKeyframe>)
    requires fps != 0
    ensures |keys| == if numFrames > 0 then numFrames else 0
    ensures forall i :: 0 <= i < |keys| ==>
      keys[i].frame == startFrame + i && keys[i].time == i as real / fps as real
  {
    var time := 0.0;
    var timePerFrame := 1.0 / fps as real;
    keys := [];
    var i := 0;
    while i < numFrames
      invariant 0 <= i && (if numFrames > 0 then i <= numFrames else i == 0)
      invariant |keys| == i
      invariant time == i as real / fps as real
      invariant forall k :: 0 <= k < i ==>
        keys[k].frame == startFrame + k && keys[k].time == k as real / fps as real
    {
      keys := keys + [MorphKeyframe(startFrame + i, time)];
      NextTime(i, fps);
      time := time + timePerFrame;
      i := i + 1;
    }
  }

  lemma NextTime(i: int, fps: int)
    requires fps != 0
    ensures i as real / fps as real + 1.0 / fps as real == (i + 1) as real / fps as real
  {
  }

  /** The frames a track shows are exactly `startFrame` up to
      `startFrame + numFrames - 1`, so they all exist in a model with
      `modelFrames` frames exactly when that range lies inside it. */
  lemma MorphTrackFramesInRange(keys: seq<MorphKeyframe>, startFrame: int, numFrames: int, modelFrames: int)
    requires numFrames > 0 && |keys| == numFrames
    requires forall i :: 0 <= i < |keys| ==> keys[i].frame == startFrame + i
    ensures (forall i :: 0 <= i < |keys| ==> 0 <= keys[i].frame < modelFrames) <==>
      0 <= startFrame && startFrame + numFrames <= modelFrames
  {
    assert keys[0].frame == startFrame;
    assert keys[numFrames - 1].frame == startFrame + numFrames - 1;
  }

  /** At a positive rate the keyframes are in strictly increasing time,
      and one frame interval after the last keyframe the animation's length
      is reached. */
  lemma MorphTrackTimes(keys: seq<MorphKeyframe>, anim: AnimationDef)
    requires anim.fps > 0 && anim.numFrames > 0 && |keys| == anim.numFrames
    requires forall i :: 0 <= i < |keys| ==> keys[i].time == i as real / anim.fps as real
    ensures keys[0].time == 0.0
    ensures forall i, j :: 0 <= i < j < |keys| ==> keys[i].time < keys[j].time
    ensures keys[|keys| - 1].time + 1.0 / anim.fps as real == AnimationLength(anim)
  {
    var f := anim.fps as real;
    forall i, j | 0 <= i < j < |keys|
      ensures keys[i].time < keys[j].time
    {
      DivideStrictlyMonotone(i as real, j as real, f);
    }
    NextTime(|keys| - 1, anim.fps);
  }

  lemma DivideStrictlyMonotone(a: real, b: real, f: real)
    requires a < b && f > 0.0
    ensures a / f < b / f
  {
    assert b / f - a / f == (b - a) / f;
  }
}
