/**
 * The near-duplicate collapser of strip_similar_frames: a state machine over a
 * "similar sequence" flag and a counter of the frames in the current similar
 * run, updated once per input frame. The similarity score (SSIM) is an opaque
 * function of the previous and the current input frame; only its strict
 * comparison with the similarity threshold matters.
 */
module NearDuplicates {
  import opened FrameRuns

  /** Whether frame f is written, when `ss` are the comparisons of the stream
      (true: similarity to the previous input frame strictly above the threshold)
      and comparison f - 1 is the one of frame f. With r the length of the similar
      run that frame f ends (0 for the first frame and for a frame not similar to
      its predecessor), the frame is written when r <= 1 or r <= frameThreshold:
      every run keeps its first frame, whatever the threshold. */
  predicate Kept(ss: seq<bool>, f: nat, frameThreshold: int)
    requires f <= |ss|
  {
    var r := RunEndingAt(ss, f);
    r <= 1 || r <= frameThreshold
  }

  /** The frames written among frames 0 .. k - 1, in stream order. */
  function KeptFrames(ss: seq<bool>, ft: int, k: nat): seq<nat>
    requires k <= |ss| + 1
  {
    if k == 0 then []
    else KeptFrames(ss, ft, k - 1) + (if Kept(ss, k - 1, ft) then [k - 1] else [])
  }

  /** KeptFrames lists, in increasing order, exactly the written frames below k;
      the first frame and every frame not similar to its predecessor are among
      them, and there are at most k. */
  lemma {:induction false} KeptFramesSpec(ss: seq<bool>, ft: int, k: nat)
    requires k <= |ss| + 1
    ensures forall f: nat :: f in KeptFrames(ss, ft, k) <==> f < k && Kept(ss, f, ft)
    ensures forall i, j :: 0 <= i < j < |KeptFrames(ss, ft, k)| ==>
      KeptFrames(ss, ft, k)[i] < KeptFrames(ss, ft, k)[j]
    ensures |KeptFrames(ss, ft, k)| <= k
    ensures k >= 1 ==> 0 in KeptFrames(ss, ft, k)
    ensures forall f :: 1 <= f < k && !ss[f - 1] ==> f in KeptFrames(ss, ft, k)
  {
    if k > 0 {
      KeptFramesSpec(ss, ft, k - 1);
      var w := KeptFrames(ss, ft, k - 1);
      forall i | 0 <= i < |w|
        ensures w[i] < k - 1
      {
        assert w[i] in w;
      }
    }
  }

  /** The len-th frame of a similar run is written exactly when len <= 1 or
      len <= frameThreshold. */
  lemma RunFrameKept(ss: seq<bool>, ft: int, s: nat, len: nat)
    requires 1 <= len && s + len <= |ss|
    requires s == 0 || !ss[s - 1]
    requires forall i :: s <= i < s + len ==> ss[i]
    ensures Kept(ss, s + len, ft) <==> len <= 1 || len <= ft
  {
    RunEndingAtUnique(ss, s + len, len);
  }

  /** How many frames of a similar run of length len are written:
      max(1, min(len, frameThreshold)). */
  function RunWritten(ft: int, len: nat): nat
  {
    if ft <= 1 then 1 else if len <= ft then len else ft
  }

  lemma RangeSnoc(lo: nat, c: nat)
    ensures seq(c + 1, i => lo + i) == seq(c, i => lo + i) + [lo + c]
  {
  }

  /** One more frame of a similar run: appended exactly when it is among the
      first RunWritten of the run. */
  lemma RunStep(ss: seq<bool>, ft: int, s: nat, len: nat)
    requires 2 <= len && s + len <= |ss|
    requires Kept(ss, s + len, ft) <==> len <= ft
    requires KeptFrames(ss, ft, s + len) == KeptFrames(ss, ft, s + 1) + seq(RunWritten(ft, len - 1), i => s + 1 + i)
    ensures KeptFrames(ss, ft, s + len + 1) == KeptFrames(ss, ft, s + 1) + seq(RunWritten(ft, len), i => s + 1 + i)
  {
    var base, run := KeptFrames(ss, ft, s + 1), seq(RunWritten(ft, len - 1), i => s + 1 + i);
    if len <= ft {
      RangeSnoc(s + 1, len - 1);
      assert (base + run) + [s + len] == base + (run + [s + len]);
    }
  }

  /** The first frame of a similar run is always appended. */
  lemma RunStart(ss: seq<bool>, ft: int, s: nat)
    requires s + 1 <= |ss| && Kept(ss, s + 1, ft)
    ensures KeptFrames(ss, ft, s + 2) == KeptFrames(ss, ft, s + 1) + seq(RunWritten(ft, 1), i => s + 1 + i)
  {
    assert seq(RunWritten(ft, 1), i => s + 1 + i) == [s + 1];
  }

  /** Of a run of `len` >= 1 consecutive similar frames starting at frame s + 1,
      exactly the first max(1, min(len, frameThreshold)) are written, whatever
      the threshold: the first frame of the run always is. */
  lemma {:induction false} SimilarRunWritten(ss: seq<bool>, ft: int, s: nat, len: nat)
    requires 1 <= len && s + len <= |ss|
    requires s == 0 || !ss[s - 1]
    requires forall i :: s <= i < s + len ==> ss[i]
    ensures KeptFrames(ss, ft, s + len + 1) == KeptFrames(ss, ft, s + 1) + seq(RunWritten(ft, len), i => s + 1 + i)
  {
    RunFrameKept(ss, ft, s, len);
    if len == 1 {
      RunStart(ss, ft, s);
    } else {
      SimilarRunWritten(ss, ft, s, len - 1);
      RunStep(ss, ft, s, len);
    }
  }

  /** With every frame similar to its predecessor, exactly the first
      max(1, frameThreshold) + 1 frames that the stream has are written: frame 0,
      which has no predecessor, and the first frames of the similar run. */
  lemma {:induction false} AllSimilarKeepsLeadIn(ss: seq<bool>, ft: int, k: nat)
    requires forall i :: 0 <= i < |ss| ==> ss[i]
    requires k <= |ss| + 1
    ensures KeptFrames(ss, ft, k) ==
      var cap := if ft <= 1 then 2 else ft + 1;
      seq(if k < cap then k else cap, i => i)
  {
    if k > 0 {
      AllSimilarKeepsLeadIn(ss, ft, k - 1);
      RunEndingAtUnique(ss, k - 1, k - 1);
    }
  }

  class NearDuplicateCollapser<F> {
    const similarity: (F, F) -> real
    const similarityThreshold: real
    const frameThreshold: int
    /** The previous input frame, None before the first frame. */
    var previous: Option<F>
    var similarSequence: bool
    var framesInSequence: nat
    /** One entry per frame read after the first: whether its similarity to the
        previous input frame was strictly above the threshold. */
    ghost var history: seq<bool>

    ghost predicate Valid()
      reads this
    {
      (previous.None? ==> history == []) &&
      framesInSequence == RunEndingAt(history, |history|) &&
      (similarSequence <==> framesInSequence >= 1)
    }

    constructor (similarity: (F, F) -> real, similarityThreshold: real, frameThreshold: int)
      ensures Valid() && previous == None && history == []
      ensures this.similarity == similarity && this.similarityThreshold == similarityThreshold
      ensures this.frameThreshold == frameThreshold
      ensures !similarSequence && framesInSequence == 0
    {
      this.similarity := similarity;
      this.similarityThreshold := similarityThreshold;
      this.frameThreshold := frameThreshold;
      previous := None;
      similarSequence := false;
      framesInSequence := 0;
      history := [];
    }

    /** Reads the next frame, updates the run state, and says whether the frame
        is written. The frame is compared with the previous input frame, whether
        or not that one was written. */
    method Observe(frame: F) returns (write: bool)
      requires Valid()
      modifies this
      ensures Valid() && previous == Some(frame)
      ensures old(previous).None? ==> history == [] && write
      ensures old(previous).Some? ==>
        history == old(history) + [similarity(old(previous).value, frame) > similarityThreshold]
      ensures write == Kept(history, |history|, frameThreshold)
      ensures old(previous).Some? && similarity(old(previous).value, frame) <= similarityThreshold ==>
        write && !similarSequence && framesInSequence == 0
      ensures old(previous).Some? && similarity(old(previous).value, frame) > similarityThreshold ==>
        similarSequence && framesInSequence == old(framesInSequence) + 1
    {
      write := true;
      if previous.Some? {
        var score := similarity(previous.value, frame);
        ghost var before := history;
        ghost var after := history + [score > similarityThreshold];
        assert after[..|before|] == before;
        RunEndingAtAgree(before, after, |before|);
        if score > similarityThreshold {
          if !similarSequence {
            similarSequence := true;
            framesInSequence := 1;
          } else {
            framesInSequence := framesInSequence + 1;
            write := framesInSequence <= frameThreshold;
          }
        } else {
          similarSequence := false;
          framesInSequence := 0;
        }
        history := after;
      }
      previous := Some(frame);
    }
  }

  /** The written frames of a whole stream: in increasing order, exactly the
      frames Kept admits; at most as many as the input frames; the first frame
      and every frame not similar to its predecessor among them. */
  lemma StreamKeptFrames<F>(frames: seq<F>, similarity: (F, F) -> real, similarityThreshold: real,
                            frameThreshold: int)
    requires frames != []
    ensures var w := KeptFrames(Transitions(frames, similarity, similarityThreshold), frameThreshold, |frames|);
      (forall f: nat :: f in w <==>
         f < |frames| && Kept(Transitions(frames, similarity, similarityThreshold), f, frameThreshold)) &&
      (forall i, j :: 0 <= i < j < |w| ==> w[i] < w[j]) &&
      |w| <= |frames| && 0 in w &&
      (forall f :: 1 <= f < |frames| && similarity(frames[f - 1], frames[f]) <= similarityThreshold ==>
         f in w)
  {
    var ss := Transitions(frames, similarity, similarityThreshold);
    KeptFramesSpec(ss, frameThreshold, |frames|);
    forall f | 1 <= f < |frames| && similarity(frames[f - 1], frames[f]) <= similarityThreshold
      ensures f in KeptFrames(ss, frameThreshold, |frames|)
    {
      TransitionsAt(frames, similarity, similarityThreshold, f - 1);
    }
  }

  /** strip_similar_frames over a stream of frames: returns the indices of the
      written frames, which are exactly the frames Kept says are written. */
  method StripSimilarFrames<F>(frames: seq<F>, similarity: (F, F) -> real, similarityThreshold: real,
                               frameThreshold: int)
    returns (written: seq<nat>)
    ensures frames == [] ==> written == []
    ensures frames != [] ==>
      written == KeptFrames(Transitions(frames, similarity, similarityThreshold), frameThreshold, |frames|)
    ensures forall f: nat :: f in written <==>
      f < |frames| && Kept(Transitions(frames, similarity, similarityThreshold), f, frameThreshold)
    ensures forall i, j :: 0 <= i < j < |written| ==> written[i] < written[j]
    ensures |written| <= |frames|
    ensures frames != [] ==> 0 in written
    ensures forall f :: 1 <= f < |frames| && similarity(frames[f - 1], frames[f]) <= similarityThreshold ==>
      f in written
  {
    written := [];
    if frames == [] {
      return;
    }
    ghost var ss := Transitions(frames, similarity, similarityThreshold);
    var filter := new NearDuplicateCollapser(similarity, similarityThreshold, frameThreshold);
    var k := 0;
    while k < |frames|
      invariant 0 <= k <= |frames|
      invariant filter.Valid()
      invariant k == 0 ==> filter.previous == None
      invariant k > 0 ==> filter.previous == Some(frames[k - 1])
      invariant filter.history == ss[..if k == 0 then 0 else k - 1]
      invariant filter.similarity == similarity && filter.similarityThreshold == similarityThreshold
      invariant filter.frameThreshold == frameThreshold
      invariant written == KeptFrames(ss, frameThreshold, k)
    {
      var write := filter.Observe(frames[k]);
      if k > 0 {
        TransitionsAt(frames, similarity, similarityThreshold, k - 1);
      }
      assert filter.history == ss[..k];
      RunEndingAtAgree(ss[..k], ss, k);
      if write {
        written := written + [k];
      }
      k := k + 1;
    }
    StreamKeptFrames(frames, similarity, similarityThreshold, frameThreshold);
  }
}
