/** `resampleAnimation` of MD5ModelToMesh.cpp and the guard in
    `buildAnimation` that decides when it runs: an animation recorded at
    one frame rate is re-sampled at another by interpolating between the
    two recorded frames around each new sample time. */
module Md5Resample {
  import opened Wrappers
  import opened Md5Model
  import opened Md5Anim

  /** `q` is the quotient of `a` by `b` truncated toward zero: the
      remainder `a - q * b` has the sign of `a` and is smaller than `b` in
      size. */
  predicate Truncates(a: int, b: int, q: int) {
    var rem := a - q * b;
    (if a >= 0 then 0 <= rem else rem <= 0) && Abs(rem) < Abs(b)
  }

  function Abs(n: int): nat {
    if n >= 0 then n else -n
  }

  /** C's integer division, which truncates toward zero. */
  function TruncDiv(a: int, b: int): (q: int)
    requires b != 0
    ensures Truncates(a, b, q)
    ensures a >= 0 && b > 0 ==> q == a / b
    ensures (a >= 0) == (b > 0) ==> q >= 0
    ensures (a >= 0) != (b > 0) ==> q <= 0
  {
    var n, d := Abs(a), Abs(b);
    var m := n / d;
    TruncatesBySize(a, b, n, d, m);
    if (a >= 0) == (b > 0) then m else -m
  }

  /** Dividing the sizes and giving the quotient the sign the operands'
      signs call for truncates. */
  lemma TruncatesBySize(a: int, b: int, n: int, d: int, m: int)
    requires b != 0 && n == Abs(a) && d == Abs(b) && m == n / d
    ensures m >= 0
    ensures Truncates(a, b, if (a >= 0) == (b > 0) then m else -m)
  {
    QuotientOfSizes(n, d);
    var r := n % d;
    var p := m * d;
    assert n == p + r && 0 <= r < d;
    if a >= 0 && b > 0 {
      assert a - m * b == r;
    } else if a >= 0 {
      assert (-m) * b == p;
      assert a - (-m) * b == r;
    } else if b > 0 {
      assert (-m) * b == -p;
      assert a - (-m) * b == -r;
    } else {
      assert m * b == -p;
      assert a - m * b == -r;
    }
  }

  lemma QuotientOfSizes(n: int, d: int)
    requires n >= 0 && d > 0
    ensures n / d >= 0 && n == (n / d) * d + n % d && 0 <= n % d < d
  {
  }

  /** `out->num_frames`: the number of frames the same duration holds at
      the new rate. */
  function ResampledCount(numFrames: int, frameRate: int, fps: int): int
    requires frameRate != 0
  {
    TruncDiv(numFrames * fps, frameRate)
  }

  /** The time of output frame `i`, measured in input frames:
      `i * (frameRate / fps)`. */
  function SamplePosition(i: int, frameRate: int, fps: int): real
    requires fps != 0
  {
    i as real * (frameRate as real / fps as real)
  }

  /** The input frame at or before the sample, `(int)floor(position)`. */
  function SourceFrame(i: int, frameRate: int, fps: int): int
    requires fps != 0
  {
    SamplePosition(i, frameRate, fps).Floor
  }

  /** How far the sample lies past `SourceFrame`, in [0, 1). */
  function Interp(i: int, frameRate: int, fps: int): (t: real)
    requires fps != 0
    ensures 0.0 <= t < 1.0
  {
    SamplePosition(i, frameRate, fps) - SourceFrame(i, frameRate, fps) as real
  }

  /** The two input frames output frame `i` interpolates between, as the
      code reads them: the source frame and the one after it. */
  function FramesReadAsWritten(i: int, frameRate: int, fps: int): (pair: (int, int))
    requires fps != 0
    ensures pair.1 == pair.0 + 1
  {
    var frame := SourceFrame(i, frameRate, fps);
    (frame, frame + 1)
  }

  /** For non-negative operands the sample position is the rational
      `i * frameRate / fps`: its floor is the integer quotient and its
      fraction the remainder over `fps`. */
  lemma SourceFrameIsQuotient(i: int, frameRate: int, fps: int)
    requires i >= 0 && frameRate > 0 && fps > 0
    ensures SourceFrame(i, frameRate, fps) == (i * frameRate) / fps
    ensures Interp(i, frameRate, fps) == ((i * frameRate) % fps) as real / fps as real
  {
    var a := i * frameRate;
    assert SamplePosition(i, frameRate, fps) == a as real / fps as real by {
      ProductOverDivisor(i as real, frameRate as real, fps as real);
    }
    FloorOfQuotient(a, fps);
  }

  lemma ProductOverDivisor(i: real, r: real, f: real)
    requires f != 0.0
    ensures i * (r / f) == (i * r) / f
  {
  }

  lemma FloorOfQuotient(a: int, b: int)
    requires a >= 0 && b > 0
    ensures (a as real / b as real).Floor == a / b
    ensures a as real / b as real - (a / b) as real == (a % b) as real / b as real
  {
    var q, m := a / b, a % b;
    assert a == q * b + m;
    SplitQuotient(a as real, b as real, q as real, m as real);
  }

  lemma SplitQuotient(a: real, b: real, q: real, m: real)
    requires b > 0.0 && 0.0 <= m < b && a == q * b + m
    ensures a / b == q + m / b
    ensures 0.0 <= m / b < 1.0
  {
  }

  /** Every output frame's first read is in range: sample `i` lies before
      the end of the input. */
  lemma SourceFrameInRange(numFrames: int, frameRate: int, fps: int, i: int)
    requires numFrames >= 0 && frameRate > 0 && fps > 0
    requires 0 <= i < ResampledCount(numFrames, frameRate, fps)
    ensures 0 <= SourceFrame(i, frameRate, fps) < numFrames
  {
    SampleBeforeEnd(numFrames, frameRate, fps, i);
    SourceFrameIsQuotient(i, frameRate, fps);
    QuotientBelow(i * frameRate, fps, numFrames);
  }

  /** The last sample lies at least one input frame interval before the
      end: `(i + 1) * frameRate <= numFrames * fps`. */
  lemma SampleBeforeEnd(numFrames: int, frameRate: int, fps: int, i: int)
    requires numFrames >= 0 && frameRate > 0 && fps > 0
    requires 0 <= i < ResampledCount(numFrames, frameRate, fps)
    ensures (i + 1) * frameRate <= numFrames * fps
  {
    var n := numFrames * fps;
    var c := n / frameRate;
    assert c * frameRate <= n;
    MulMonotone(i + 1, c, frameRate);
  }

  lemma MulMonotone(a: int, b: int, k: int)
    requires a <= b && k >= 0
    ensures a * k <= b * k
  {
    assert b * k - a * k == (b - a) * k;
  }

  /** A quotient by `d` stays below `bound` when the dividend is below
      `bound * d`. */
  lemma QuotientBelow(a: int, d: int, bound: int)
    requires a >= 0 && d > 0 && a < bound * d
    ensures 0 <= a / d < bound
  {
    var q := a / d;
    assert q * d <= a;
    if q >= bound {
      MulMonotone(bound, q, d);
    }
  }

  /** When the animation is slowed down (fewer frames per second) the
      second read is in range too. */
  lemma DownsamplingReadsInRange(numFrames: int, frameRate: int, fps: int, i: int)
    requires numFrames >= 0 && 0 < fps < frameRate
    requires 0 <= i < ResampledCount(numFrames, frameRate, fps)
    ensures 0 <= FramesReadAsWritten(i, frameRate, fps).1 < numFrames
  {
    SampleBeforeEnd(numFrames, frameRate, fps, i);
    SourceFrameIsQuotient(i, frameRate, fps);
    assert i * frameRate < (numFrames - 1) * fps by {
      assert (i + 1) * frameRate == i * frameRate + frameRate;
      assert (numFrames - 1) * fps == numFrames * fps - fps;
    }
    QuotientBelow(i * frameRate, fps, numFrames - 1);
  }

  /** When the animation is sped up the code reads one frame past the
      end: two frames at 10 fps resampled to 20 fps give four output
      frames, and output frame 2 interpolates towards input frame 2. */
  lemma UpsamplingReadsPastEnd()
    ensures ResampledCount(2, 10, 20) == 4
    ensures FramesReadAsWritten(2, 10, 20) == (1, 2)
  {
    SourceFrameIsQuotient(2, 10, 20);
  }

  /** The second frame to read, held at the last input frame instead of
      running past it. */
  function NextSourceFrame(i: int, numFrames: int, frameRate: int, fps: int): (next: int)
    requires fps != 0
    ensures next <= numFrames - 1
    ensures next == SourceFrame(i, frameRate, fps) + 1 || next == numFrames - 1
  {
    var frame := SourceFrame(i, frameRate, fps);
    if frame + 1 < numFrames then frame + 1 else numFrames - 1
  }

  /** Both reads of every output frame are in range, and where the code as
      written was in range the held frame is the one it read. */
  lemma NextSourceFrameInRange(numFrames: int, frameRate: int, fps: int, i: int)
    requires numFrames >= 0 && frameRate > 0 && fps > 0
    requires 0 <= i < ResampledCount(numFrames, frameRate, fps)
    ensures 0 <= SourceFrame(i, frameRate, fps) <= NextSourceFrame(i, numFrames, frameRate, fps) < numFrames
    ensures FramesReadAsWritten(i, frameRate, fps).1 < numFrames ==>
      NextSourceFrame(i, numFrames, frameRate, fps) == FramesReadAsWritten(i, frameRate, fps).1
  {
    SourceFrameInRange(numFrames, frameRate, fps, i);
  }

  /** Output frame `i`: the two input skeletons around the sample,
      interpolated by the sample's fraction. */
  ghost function ResampledFrame(anim: Anim, fps: int, i: int): (skel: seq<Joint>)
    requires FramesWellFormed(anim) && anim.frameRate > 0 && fps > 0
    requires 0 <= i < ResampledCount(|anim.skelFrames|, anim.frameRate, fps)
    ensures |skel| == anim.numJoints
  {
    var n := |anim.skelFrames|;
    NextSourceFrameInRange(n, anim.frameRate, fps, i);
    InterpolateSkeletons(anim.skelFrames[SourceFrame(i, anim.frameRate, fps)],
                         anim.skelFrames[NextSourceFrame(i, n, anim.frameRate, fps)],
                         anim.numJoints, Interp(i, anim.frameRate, fps))
  }

  /** `resampleAnimation`, reading the held last frame where the code reads
      past the end.  The new animation has no bounding boxes.  A negative
      recorded rate gives a frame count of zero or less, so the sampling
      loop never runs and the result has no frames. */
  ghost function ResampleAnimation(anim: Anim, fps: int): (out: Anim)
    requires FramesWellFormed(anim) && anim.frameRate != 0 && fps > 0
    ensures out.frameRate == fps && out.numJoints == anim.numJoints && out.bboxes == []
    ensures FramesWellFormed(out)
    ensures var count := ResampledCount(|anim.skelFrames|, anim.frameRate, fps);
      |out.skelFrames| == if count > 0 then count else 0
    ensures anim.frameRate < 0 ==> out.skelFrames == []
    ensures forall i :: 0 <= i < |out.skelFrames| ==>
      anim.frameRate > 0 && out.skelFrames[i] == ResampledFrame(anim, fps, i)
  {
    var n := |anim.skelFrames|;
    var c := ResampledCount(n, anim.frameRate, fps);
    var count := if c > 0 then c else 0;
    NoFramesAtNegativeRate(n, anim.frameRate, fps);
    var frames := seq(count, i requires 0 <= i < count => ResampledFrame(anim, fps, i));
    Anim(anim.numJoints, fps, frames, [])
  }

  /** A negative recorded rate makes the frame count zero or negative. */
  lemma NoFramesAtNegativeRate(numFrames: int, frameRate: int, fps: int)
    requires numFrames >= 0 && frameRate != 0 && fps > 0
    ensures ResampledCount(numFrames, frameRate, fps) > 0 ==> frameRate > 0
  {
    assert numFrames * fps >= 0;
  }

  /** The output holds as many whole frames as fit in the input's
      duration: `count / fps <= numFrames / frameRate < (count + 1) / fps`. */
  lemma CountCoversDuration(numFrames: int, frameRate: int, fps: int)
    requires numFrames >= 0 && frameRate > 0 && fps > 0
    ensures ResampledCount(numFrames, frameRate, fps) >= 0
    ensures ResampledCount(numFrames, frameRate, fps) * frameRate <= numFrames * fps
    ensures numFrames * fps < (ResampledCount(numFrames, frameRate, fps) + 1) * frameRate
  {
    var a := numFrames * fps;
    var c := a / frameRate;
    assert a == c * frameRate + a % frameRate;
    assert (c + 1) * frameRate == c * frameRate + frameRate;
  }

  /** The first output frame is the first input frame (up to joint names,
      which `InterpolateSkeletons` does not copy). */
  lemma ResampleKeepsFirstFrame(anim: Anim, fps: int)
    requires FramesWellFormed(anim) && anim.frameRate > 0 && fps > 0
    requires ResampledCount(|anim.skelFrames|, anim.frameRate, fps) > 0
    ensures var first := ResampleAnimation(anim, fps).skelFrames[0];
      forall j :: 0 <= j < anim.numJoints ==>
        first[j].parent == anim.skelFrames[0][j].parent &&
        first[j].pos == anim.skelFrames[0][j].pos &&
        first[j].orient == anim.skelFrames[0][j].orient
  {
    SourceFrameIsQuotient(0, anim.frameRate, fps);
  }

  /** The test in `buildAnimation`: resample only to a positive rate that
      differs from the recorded one. */
  predicate NeedsResample(anim: Anim, fps: int) {
    fps > 0 && fps != anim.frameRate
  }

  /** The animation the tracks are built from, or None when resampling
      would divide by a recorded rate of 0 (MD5ModelToMesh.cpp:488). */
  ghost function FinalAnim(anim: Anim, fps: int): (out: Option<Anim>)
    requires FramesWellFormed(anim)
    ensures out.None? <==> NeedsResample(anim, fps) && anim.frameRate == 0
    ensures out.Some? ==>
      out.value.frameRate == (if fps > 0 then fps else anim.frameRate) &&
      out.value.numJoints == anim.numJoints && FramesWellFormed(out.value)
    ensures !NeedsResample(anim, fps) ==> out == Some(anim)
    ensures NeedsResample(anim, fps) && anim.frameRate < 0 ==> out.Some? && out.value.skelFrames == []
  {
    if !NeedsResample(anim, fps) then Some(anim)
    else if anim.frameRate == 0 then None
    else Some(ResampleAnimation(anim, fps))
  }
}
