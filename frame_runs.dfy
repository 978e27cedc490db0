/**
 * Shared vocabulary of the two frame filters: the thresholded comparison of
 * every input frame with the previous input frame, and the length of the run
 * of consecutive "above threshold" comparisons that ends at the current frame.
 */
module FrameRuns {

  datatype Option<T> = None | Some(value: T)

  /** Number of consecutive `true` entries of `s` that end just before index `k`,
      that is, the length of the run current after the first `k` comparisons. */
  function RunEndingAt(s: seq<bool>, k: nat): (r: nat)
    requires k <= |s|
    ensures r <= k
    ensures r == 0 <==> k == 0 || !s[k - 1]
  {
    if k == 0 || !s[k - 1] then 0 else 1 + RunEndingAt(s, k - 1)
  }

  /** RunEndingAt is the length of a maximal run: the `r` entries before `k`
      hold, and the entry just before them, if there is one, does not. */
  lemma {:induction false} RunEndingAtIsRun(s: seq<bool>, k: nat)
    requires k <= |s|
    ensures forall i :: k - RunEndingAt(s, k) <= i < k ==> s[i]
    ensures RunEndingAt(s, k) < k ==> !s[k - RunEndingAt(s, k) - 1]
  {
    if k > 0 && s[k - 1] {
      RunEndingAtIsRun(s, k - 1);
    }
  }

  /** The two properties of RunEndingAtIsRun admit only one value. */
  lemma RunEndingAtUnique(s: seq<bool>, k: nat, r: nat)
    requires r <= k <= |s|
    requires forall i :: k - r <= i < k ==> s[i]
    requires r < k ==> !s[k - r - 1]
    ensures RunEndingAt(s, k) == r
  {
    RunEndingAtIsRun(s, k);
  }

  /** The run ending at `k` depends only on the first `k` comparisons. */
  lemma {:induction false} RunEndingAtAgree(s: seq<bool>, t: seq<bool>, k: nat)
    requires k <= |s| && k <= |t|
    requires s[..k] == t[..k]
    ensures RunEndingAt(s, k) == RunEndingAt(t, k)
  {
    if k > 0 {
      assert s[k - 1] == s[..k][k - 1] == t[k - 1];
      assert s[..k - 1] == s[..k][..k - 1] == t[..k][..k - 1] == t[..k - 1];
      RunEndingAtAgree(s, t, k - 1);
    }
  }

  /** A block of above-threshold comparisons lengthens the run by the block's length. */
  lemma RunEndingAtExtend(s: seq<bool>, p: nat, q: nat)
    requires p <= q <= |s|
    requires forall i :: p <= i < q ==> s[i]
    ensures RunEndingAt(s, q) == RunEndingAt(s, p) + (q - p)
  {
    RunEndingAtIsRun(s, p);
    RunEndingAtUnique(s, q, RunEndingAt(s, p) + (q - p));
  }

  /** The thresholded comparison of each input frame with the input frame before
      it: a stream of n frames gives n - 1 comparisons (none when it is empty), and
      TransitionsAt says what each one is. */
  function Transitions<F>(frames: seq<F>, score: (F, F) -> real, threshold: real): (ts: seq<bool>)
    ensures |ts| == if frames == [] then 0 else |frames| - 1
  {
    if |frames| <= 1 then []
    else
      var n := |frames|;
      Transitions(frames[..n - 1], score, threshold) + [score(frames[n - 2], frames[n - 1]) > threshold]
  }

  /** Comparison i is whether score(frames[i], frames[i + 1]) is strictly above the
      threshold: every frame is compared with the previous input frame. */
  lemma {:induction false} TransitionsAt<F>(frames: seq<F>, score: (F, F) -> real, threshold: real, i: nat)
    requires i + 1 < |frames|
    ensures Transitions(frames, score, threshold)[i] <==> score(frames[i], frames[i + 1]) > threshold
  {
    var n := |frames|;
    if i + 2 < n {
      TransitionsAt(frames[..n - 1], score, threshold, i);
    }
  }
}
