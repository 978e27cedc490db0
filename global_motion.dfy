/**
 * The global-motion dropper of strip_drone_movement: a hysteresis state machine
 * over a high-motion run counter and a "keep writing" flag, updated once for
 * every frame after the first. The per-transition normalized motion (Farneback
 * flow, grid median, scaling) is an opaque function of the previous and the
 * current frame; only its strict comparison with the motion threshold matters.
 */
module GlobalMotion {
  import opened FrameRuns

  /** Whether writing is on after the first `f` comparisons of `hs` (true:
      normalized motion strictly above the threshold), stated through runs rather
      than through the update rule. Writing starts on. Afterwards it is on exactly
      when the current high-motion run is shorter than `n` and, if a calm
      comparison precedes that run, the high-motion run that the latest calm
      comparison ended was shorter than `n` as well. */
  predicate Keeping(hs: seq<bool>, f: nat, n: nat)
    requires f <= |hs|
  {
    f == 0 ||
    (var r := RunEndingAt(hs, f);
     r < n && (r == f || RunEndingAt(hs, f - r - 1) < n))
  }

  /** Whether writing is on after `f` comparisons depends only on those comparisons. */
  lemma KeepingAgree(hs: seq<bool>, ts: seq<bool>, f: nat, n: nat)
    requires f <= |hs| && f <= |ts| && hs[..f] == ts[..f]
    ensures Keeping(hs, f, n) == Keeping(ts, f, n)
  {
    RunEndingAtAgree(hs, ts, f);
    var r := RunEndingAt(hs, f);
    if r < f {
      assert hs[..f - r - 1] == hs[..f][..f - r - 1] == ts[..f][..f - r - 1] == ts[..f - r - 1];
      RunEndingAtAgree(hs, ts, f - r - 1);
    }
  }

  /** The update rule of the filter agrees with Keeping: a high-motion comparison
      keeps the flag only while the lengthened run stays below `n`; a calm one sets
      it exactly when the run it ends was shorter than `n`. */
  lemma KeepingStep(hs: seq<bool>, f: nat, n: nat)
    requires f < |hs|
    ensures Keeping(hs, f + 1, n) <==>
      if hs[f] then Keeping(hs, f, n) && RunEndingAt(hs, f) + 1 < n else RunEndingAt(hs, f) < n
  {
  }

  /** Once the high-motion run reaches `n` (after comparison p), no frame is
      written while the run lasts, nor the frame of the comparison right after
      it, even when that comparison is calm. */
  lemma DroppedUntilAfterCalm(hs: seq<bool>, n: nat, p: nat, q: nat)
    requires 1 <= p <= q <= |hs|
    requires RunEndingAt(hs, p) >= n
    requires forall i :: p <= i < q ==> hs[i]
    ensures !Keeping(hs, q, n)
    ensures q < |hs| ==> !Keeping(hs, q + 1, n)
  {
    RunEndingAtExtend(hs, p, q);
    if q < |hs| {
      KeepingStep(hs, q, n);
    }
  }

  /** Writing switches back on only at a calm comparison that ends a high-motion
      run shorter than `n`; a high-motion comparison never switches it on. */
  lemma ResumesOnlyAfterShortRun(hs: seq<bool>, n: nat, f: nat)
    requires f < |hs|
    requires !Keeping(hs, f, n) && Keeping(hs, f + 1, n)
    ensures !hs[f] && RunEndingAt(hs, f) < n
  {
    KeepingStep(hs, f, n);
  }

  /** The frames written among frames 1 .. k - 1, in stream order, when `hs` are
      the comparisons of the whole stream (comparison f - 1 decides frame f). */
  function WrittenFrames(hs: seq<bool>, n: nat, k: nat): seq<nat>
    requires k <= |hs| + 1
  {
    if k <= 1 then []
    else WrittenFrames(hs, n, k - 1) + (if Keeping(hs, k - 1, n) then [k - 1] else [])
  }

  /** WrittenFrames lists, in increasing order, exactly the frames f in 1 .. k - 1
      after whose comparisons writing is on; so the reference frame 0 is never
      written and at most k - 1 frames are. */
  lemma {:induction false} WrittenFramesSpec(hs: seq<bool>, n: nat, k: nat)
    requires 1 <= k <= |hs| + 1
    ensures forall f :: f in WrittenFrames(hs, n, k) <==> 1 <= f < k && Keeping(hs, f, n)
    ensures forall i, j :: 0 <= i < j < |WrittenFrames(hs, n, k)| ==>
      WrittenFrames(hs, n, k)[i] < WrittenFrames(hs, n, k)[j]
    ensures |WrittenFrames(hs, n, k)| <= k - 1
  {
    if k > 1 {
      WrittenFramesSpec(hs, n, k - 1);
      var w := WrittenFrames(hs, n, k - 1);
      forall i | 0 <= i < |w|
        ensures w[i] < k - 1
      {
        assert w[i] in w;
      }
    }
  }

  /** With a zero frame threshold nothing is ever written. */
  lemma {:induction false} ZeroThresholdWritesNothing(hs: seq<bool>, k: nat)
    requires k <= |hs| + 1
    ensures WrittenFrames(hs, 0, k) == []
  {
    if k > 1 {
      ZeroThresholdWritesNothing(hs, k - 1);
    }
  }

  /** With every comparison above the threshold and n >= 1, exactly frames
      1 .. n - 1 are written (those the stream has). */
  lemma {:induction false} AllHighWritesLeadIn(hs: seq<bool>, n: nat, k: nat)
    requires forall i :: 0 <= i < |hs| ==> hs[i]
    requires n >= 1 && 1 <= k <= |hs| + 1
    ensures WrittenFrames(hs, n, k) == seq(if k < n then k - 1 else n - 1, i => i + 1)
  {
    if k > 1 {
      AllHighWritesLeadIn(hs, n, k - 1);
      RunEndingAtUnique(hs, k - 1, k - 1);
    }
  }

  class GlobalMotionFilter<F> {
    const motion: (F, F) -> real
    const motionThreshold: real
    const framesThreshold: nat
    /** The previous frame, against which the next one is compared. */
    var previous: F
    var motionCount: nat
    var keepFrame: bool
    /** One entry per frame read after the first: whether its normalized motion
        was strictly above the threshold. */
    ghost var history: seq<bool>

    ghost predicate Valid()
      reads this
    {
      motionCount == RunEndingAt(history, |history|) &&
      keepFrame == Keeping(history, |history|, framesThreshold)
    }

    /** The first frame is only read as the reference for the next comparison. */
    constructor (first: F, motion: (F, F) -> real, motionThreshold: real, framesThreshold: nat)
      ensures Valid() && history == [] && previous == first
      ensures this.motion == motion && this.motionThreshold == motionThreshold
      ensures this.framesThreshold == framesThreshold
      ensures motionCount == 0 && keepFrame
    {
      this.motion := motion;
      this.motionThreshold := motionThreshold;
      this.framesThreshold := framesThreshold;
      previous := first;
      motionCount := 0;
      keepFrame := true;
      history := [];
    }

    /** Reads the next frame, updates the counter and the flag, and says whether
        the frame is written. */
    method Observe(frame: F) returns (write: bool)
      requires Valid()
      modifies this
      ensures Valid() && previous == frame
      ensures history == old(history) + [motion(old(previous), frame) > motionThreshold]
      ensures write == keepFrame && write == Keeping(history, |history|, framesThreshold)
      ensures motion(old(previous), frame) > motionThreshold ==> motionCount == old(motionCount) + 1
      ensures motion(old(previous), frame) <= motionThreshold ==> motionCount == 0
      ensures motionCount >= framesThreshold ==> !write
      ensures write && !old(keepFrame) ==>
        motion(old(previous), frame) <= motionThreshold && old(motionCount) < framesThreshold
    {
      var normalizedMotion := motion(previous, frame);
      ghost var before := history;
      ghost var after := history + [normalizedMotion > motionThreshold];
      assert after[..|before|] == before;
      RunEndingAtAgree(before, after, |before|);
      KeepingAgree(before, after, |before|, framesThreshold);
      KeepingStep(after, |before|, framesThreshold);
      if normalizedMotion > motionThreshold {
        motionCount := motionCount + 1;
      } else {
        if motionCount < framesThreshold {
          keepFrame := true;
        }
        motionCount := 0;
      }
      if motionCount >= framesThreshold {
        keepFrame := false;
      }
      write := keepFrame;
      history := after;
      previous := frame;
    }
  }

  /** The written frames of a whole stream: in increasing order, exactly the
      frames f >= 1 after whose comparison writing is on; at most n - 1 of them;
      none with a zero threshold; frames 1 .. N - 1 when every transition is high. */
  lemma StreamWrittenFrames<F>(frames: seq<F>, motion: (F, F) -> real, motionThreshold: real,
                               framesThreshold: nat)
    requires frames != []
    ensures var w := WrittenFrames(Transitions(frames, motion, motionThreshold), framesThreshold, |frames|);
      (forall f :: f in w <==>
         1 <= f < |frames| && Keeping(Transitions(frames, motion, motionThreshold), f, framesThreshold)) &&
      (forall i, j :: 0 <= i < j < |w| ==> w[i] < w[j]) &&
      |w| <= |frames| - 1 &&
      (framesThreshold == 0 ==> w == []) &&
      (framesThreshold >= 1 &&
       (forall i :: 0 <= i < |frames| - 1 ==> motion(frames[i], frames[i + 1]) > motionThreshold) ==>
       w == seq(if |frames| < framesThreshold then |frames| - 1 else framesThreshold - 1, i => i + 1))
  {
    var hs := Transitions(frames, motion, motionThreshold);
    WrittenFramesSpec(hs, framesThreshold, |frames|);
    if framesThreshold == 0 {
      ZeroThresholdWritesNothing(hs, |frames|);
    }
    if framesThreshold >= 1 &&
       forall i :: 0 <= i < |frames| - 1 ==> motion(frames[i], frames[i + 1]) > motionThreshold {
      forall i | 0 <= i < |hs|
        ensures hs[i]
      {
        TransitionsAt(frames, motion, motionThreshold, i);
      }
      AllHighWritesLeadIn(hs, framesThreshold, |frames|);
    }
  }

  /** strip_drone_movement over a stream of frames: returns the indices of the
      written frames. Frame f (f >= 1) is written exactly when writing is on
      after the comparisons of frames 0 .. f; frame 0 is never written. */
  method StripDroneMovement<F>(frames: seq<F>, motion: (F, F) -> real, motionThreshold: real,
                               framesThreshold: nat)
    returns (written: seq<nat>)
    ensures frames == [] ==> written == []
    ensures frames != [] ==>
      written == WrittenFrames(Transitions(frames, motion, motionThreshold), framesThreshold, |frames|)
    ensures forall f :: f in written <==>
      1 <= f < |frames| && Keeping(Transitions(frames, motion, motionThreshold), f, framesThreshold)
    ensures forall i, j :: 0 <= i < j < |written| ==> written[i] < written[j]
    ensures frames != [] ==> |written| <= |frames| - 1
    ensures framesThreshold == 0 ==> written == []
    ensures frames != [] && framesThreshold >= 1 &&
            (forall i :: 0 <= i < |frames| - 1 ==> motion(frames[i], frames[i + 1]) > motionThreshold) ==>
            written == seq(if |frames| < framesThreshold then |frames| - 1 else framesThreshold - 1, i => i + 1)
  {
    written := [];
    if frames == [] {
      return;
    }
    ghost var hs := Transitions(frames, motion, motionThreshold);
    var filter := new GlobalMotionFilter(frames[0], motion, motionThreshold, framesThreshold);
    var k := 1;
    while k < |frames|
      invariant 1 <= k <= |frames|
      invariant filter.Valid() && filter.previous == frames[k - 1]
      invariant filter.history == hs[..k - 1]
      invariant filter.motion == motion && filter.motionThreshold == motionThreshold
      invariant filter.framesThreshold == framesThreshold
      invariant written == WrittenFrames(hs, framesThreshold, k)
    {
      var write := filter.Observe(frames[k]);
      TransitionsAt(frames, motion, motionThreshold, k - 1);
      assert filter.history == hs[..k];
      KeepingAgree(hs[..k], hs, k, framesThreshold);
      if write {
        written := written + [k];
      }
      k := k + 1;
    }
    StreamWrittenFrames(frames, motion, motionThreshold, framesThreshold);
  }
}
