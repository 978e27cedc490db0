# Frame selection of the drone video bandwidth optimizer

`processVideoStream.py` has two filters that reduce the bandwidth of drone video. Each one reads a video frame by frame and writes only some of the frames. This project models which frames each filter writes, and proves it against reference definitions stated through runs of consecutive frames.

- **Global-motion dropper** (`strip_drone_movement`). It first cuts the optical-flow field of each frame into a 16 × 16 grid of cells and scores each cell (`flow_grid.dfy`, module `FlowGrid`). The median of the cell scores, scaled, is the frame's normalized motion. A hysteresis state machine (`global_motion.dfy`, module `GlobalMotion`) then works over two values:
  - a counter of consecutive high-motion frames (`motion_count`);
  - a "keep writing" flag (`keep_frame`).

  A long high-motion run switches writing off. Writing comes back on only at a calm frame that ends a short run.
- **Near-duplicate collapser** (`strip_similar_frames`, `near_duplicates.dfy`, module `NearDuplicates`). It works over a "similar sequence" flag and a counter of the frames in the current similar run. Of each run of frames similar to their predecessor, it writes at most max(1, `frame_threshold`) frames: the first frames of the run, and always the run's first frame.

`frame_runs.dfy` (module `FrameRuns`) holds what both filters share:
- the thresholded comparison of every input frame with the previous input frame (`Transitions`);
- the length of the run of above-threshold comparisons that ends at a given frame (`RunEndingAt`).

A frame is a value of an opaque type `F`. The per-transition normalized motion and the SSIM similarity are opaque functions `(F, F) -> real`. Only their strict comparison with the threshold matters. Both filters are classes:
- their fields are the Python locals;
- their `Observe` method is one iteration of the `while True` loop;
- a driver method runs the loop over a finite sequence of frames and returns the indices (0-based) of the written frames.

Quirks of the code that the model keeps:
- The global-motion dropper never writes the first frame (frame 0). It only reads that frame as the reference for the first comparison. With every transition above the threshold and `frames_threshold = N >= 1`, it writes frames 2..N (1-based) of those the stream has.
- The calm frame that ends a run of at least `frames_threshold` high-motion frames is itself still dropped (processVideoStream.py:105-111).
- The near-duplicate collapser writes the first frame of a similar run even when `frame_threshold <= 0` (processVideoStream.py:202-205).
- `frames_threshold` is `int(fps * period_threshold)`, a truncation. The model takes the result as a natural-number parameter.
- `strip_no_motion` (processVideoStream.py:142-148) is an empty stub.

## Model

| member | source | states |
|---|---|---|
| FrameRuns.RunEndingAt | processVideoStream.py:103-108 | the run length is at most the number of comparisons read, and is 0 exactly when the latest comparison is not strictly above the threshold (or none was read) |
| FrameRuns.RunEndingAtIsRun | processVideoStream.py:103-108 | RunEndingAt is the length of a maximal run: the comparisons it spans are all above the threshold, and the one before them is not |
| FrameRuns.RunEndingAtUnique | processVideoStream.py:103-108 | any r with the maximal-run property is the run length |
| FrameRuns.RunEndingAtAgree | processVideoStream.py:103-108 | the current run depends only on the comparisons read so far |
| FrameRuns.RunEndingAtExtend | processVideoStream.py:103-104 | a block of above-threshold comparisons lengthens the run by exactly the block's length |
| FrameRuns.TransitionsAt | processVideoStream.py:186-229 | comparison i is whether the score of frames i and i + 1 is strictly above the threshold: each frame is compared with the previous input frame, written or not |
| FlowGrid.MotionScores | processVideoStream.py:77-93 | the nested scan appends exactly g * g scores, the k-th being the score of cell (k / g, k mod g) |
| FlowGrid.GridMotionScores | processVideoStream.py:62-93 | with the fixed grid of 16 cells per axis, the scan appends exactly 256 scores, the k-th being the score of the k-th cell in scan order |
| FlowGrid.ScanIndex | processVideoStream.py:81-82 | the position i * g + j of the scan is cell (i, j) |
| FlowGrid.CoveredExtent | processVideoStream.py:78 | the cells cover g * (h / g) = h - h mod g rows (and likewise columns) |
| FlowGrid.CellInFrame | processVideoStream.py:77-86 | every cell [i*cell_h, (i+1)*cell_h) × [j*cell_w, (j+1)*cell_w) lies inside the h × w field |
| FlowGrid.CellsDisjoint | processVideoStream.py:84-86 | two different cells share no position |
| FlowGrid.ScanPosition | processVideoStream.py:81-82 | every scan position below g * g names a cell (row and column below g) |
| FlowGrid.ScanDistinct | processVideoStream.py:81-82 | different scan positions name different cells |
| FlowGrid.ScanCellInFrame | processVideoStream.py:81-93 | the cell of every one of the g * g scores lies inside the field |
| FlowGrid.ScanCellsDisjoint | processVideoStream.py:81-93 | the scores at different scan positions come from disjoint cells |
| FlowGrid.RemainderUnexamined | processVideoStream.py:77-86 | the last h mod g rows and the last w mod g columns lie in no cell |
| FlowGrid.CoveredPosition | processVideoStream.py:77-86 | every other position lies in cell (y / cell_h, x / cell_w) |
| GlobalMotion.KeepingAgree | processVideoStream.py:103-111 | whether writing is on depends only on the comparisons read so far |
| GlobalMotion.KeepingStep | processVideoStream.py:103-111 | a high-motion frame keeps writing on only while the lengthened run stays below frames_threshold; a calm frame turns it on exactly when the run it ends was shorter than frames_threshold |
| GlobalMotion.DroppedUntilAfterCalm | processVideoStream.py:103-111 | once the run reaches frames_threshold, no frame is written while the run lasts, nor the calm frame that ends it |
| GlobalMotion.ResumesOnlyAfterShortRun | processVideoStream.py:105-107 | writing switches back on only at a calm frame after fewer than frames_threshold high-motion frames; a high-motion frame never switches it on |
| GlobalMotion.WrittenFramesSpec | processVideoStream.py:53-114 | the written frames are, in increasing order, exactly the frames f >= 1 after whose comparison writing is on; the first frame is never written, and at most n - 1 frames are |
| GlobalMotion.ZeroThresholdWritesNothing | processVideoStream.py:110-114 | with frames_threshold = 0 no frame is written |
| GlobalMotion.AllHighWritesLeadIn | processVideoStream.py:53-114 | with every transition above the threshold and frames_threshold = N >= 1, exactly frames 2..N (1-based) are written |
| GlobalMotion.GlobalMotionFilter.constructor | processVideoStream.py:53-59 | the first frame becomes the reference; the count is 0 and writing is on |
| GlobalMotion.GlobalMotionFilter.Observe | processVideoStream.py:103-130 | motion_count is the current high-motion run (+1 above the threshold, 0 at or below it); keep_frame agrees with Keeping; a count >= frames_threshold means the frame is not written; writing turns on only at a calm frame after a count below frames_threshold |
| GlobalMotion.StreamWrittenFrames | processVideoStream.py:53-114 | over a whole stream, the written frames are in increasing order exactly the frames f >= 1 that Keeping admits, at most n - 1, none when frames_threshold = 0, and frames 2..N (1-based) when every transition is high |
| GlobalMotion.StripDroneMovement | processVideoStream.py:53-114 | the loop writes exactly the frames that Keeping admits, in order, never frame 0, at most n - 1 frames, nothing when frames_threshold = 0, and frames 2..N when every transition is high |
| NearDuplicates.RunFrameKept | processVideoStream.py:200-209 | the len-th frame of a similar run is written exactly when len <= 1 or len <= frame_threshold |
| NearDuplicates.RunStart | processVideoStream.py:202-205 | the first frame of a similar run is appended to the written frames |
| NearDuplicates.RunStep | processVideoStream.py:206-209 | a further frame of a similar run is appended exactly when it is still among the first max(1, min(len, frame_threshold)) |
| NearDuplicates.SimilarRunWritten | processVideoStream.py:200-209 | of a run of len >= 1 similar frames, the written frames are exactly its first max(1, min(len, frame_threshold)), so the first is kept even when frame_threshold <= 0 |
| NearDuplicates.KeptFramesSpec | processVideoStream.py:186-229 | the written frames are, in increasing order, exactly the frames that Kept admits; the first frame and every frame not similar to its predecessor are among them; there are at most as many as input frames |
| NearDuplicates.AllSimilarKeepsLeadIn | processVideoStream.py:195-209 | with every frame similar to its predecessor, exactly the first max(1, frame_threshold) + 1 frames that the stream has are written |
| NearDuplicates.NearDuplicateCollapser.constructor | processVideoStream.py:186-188 | no previous frame, no similar sequence, count 0 |
| NearDuplicates.NearDuplicateCollapser.Observe | processVideoStream.py:195-229 | the first frame is written; a frame not above the similarity threshold is written and resets the flag and the count; a similar frame lengthens the run by one; similar_sequence holds exactly when frames_in_sequence >= 1, and frames_in_sequence is the current similar run; the write decision agrees with Kept |
| NearDuplicates.StreamKeptFrames | processVideoStream.py:186-229 | over a whole stream, the written frames are in increasing order exactly the frames Kept admits, at most as many as the input frames, with the first frame and every dissimilar frame among them |
| NearDuplicates.StripSimilarFrames | processVideoStream.py:186-229 | the loop writes exactly the frames that Kept admits, in order, at most as many as it reads; the first frame and every dissimilar frame are written |

## Left out

- Video capture and writer setup, the codec, `os.makedirs`, the release calls and the early return without release are I/O. The frame stream is a finite sequence and the output is the list of written frame indices.
- Farneback optical flow, `cv2.mean`, the square-root magnitude, `np.median` and `min(1.0, x / 10.0)` are floating-point numerics. The grid scan takes the cell score as an opaque function of the cell. The motion filter takes the normalized motion as an opaque function of two consecutive frames.
- SSIM scoring is a foreign floating-point library. The similarity is an opaque function of two consecutive frames.
- Scores are Dafny reals, not IEEE doubles. Only the strict `>` against the threshold is modelled; NaN scores are not modelled.
- `int(fps * period_threshold)` is float truncation. `frames_threshold` is a natural-number parameter.
- The debug overlay, `imshow` and the `waitKey` 'q' early exit are UI. The model always reads the stream to its end.
- The model assumes `debug` (processVideoStream.py:11) is off. With `debug` on, `strip_similar_frames` draws its overlay into the frame before copying it to `prev_frame`. So from the third frame on, SSIM compares a previous frame that carries text with a current frame that does not. NearDuplicates.StripSimilarFrames instead compares the input frames themselves. The motion filter is unaffected: it takes its grayscale image before drawing, and draws only after writing.
- `strip_no_motion` is an empty stub with no behaviour to model.
- Bandwith_Optimization/fetchVideoStream.py (webcam capture, timing, file sizes) is not part of this model.
- The Artemis_Dashboard files are not part of this model. They are UI components and API routes returning fixed data.
