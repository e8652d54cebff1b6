# People counter: verified model of the frame pipeline

This project models the counting core of `sistema-contagem-pessoas/main.py`.
That script reads a video frame by frame and runs an object detector on each frame.
It keeps the detections whose confidence is above 0.5.
It reduces overlapping boxes with non-maximum suppression (NMS).
It then feeds the number of remaining boxes to an edge-triggered counter.
The counter adds a frame's box count only when the frame follows an empty frame (or is the first frame).
While frames stay occupied it adds nothing more.
The keyboard can pause the run (`p`) or end it (`q`).

The model has four modules, one per piece of the script:

- `Detections` (`detections.dfy`): the loop that turns detector rows into `[x, y, width, height]` boxes and a parallel list of confidences.
  `Extract` is a method with a loop, proved against the index function `KeptIndices`.
- `Suppression` (`suppression.dfy`): the wrapper `aplicar_supressao_nao_maxima`, which maps the positions returned by the NMS library call back to boxes.
- `Counter` (`counter.dfy`): the counter state (`contador_pessoas`, `liberado`).
  It exists as a pure step and fold (`Step`, `Run`) and as the class `PeopleCounter`, whose `Update` method changes its two fields in place.
  The total is proved equal to an independent definition: the sum of the first-frame box counts of the occupancy episodes (`OnsetSum`).
- `Pipeline` (`pipeline.dfy`): per-frame processing and the main `while` loop with the pause and quit keys.

Field names are English.
`count` is `contador_pessoas`, `armed` is `liberado`, and `paused` is `pausado`.

Confidences are Dafny `real` values, which are exact rationals.
So the strict comparison with 0.5 is stated exactly.

Three behaviours of the code that a reader might not expect:

- The wrapper does no sorting of its own: the surviving boxes come in the order in which the NMS library returned their positions.
  The library's own order (decreasing confidence) is not modelled, and `SuppressNonMaximum`'s contract holds for any order of the positions.
- The code never filters by class: every class with confidence above 0.5 is counted as a person.
  `Row` carries a `classId`, and `ClassLabelIgnored` proves that it has no effect.
- The per-frame count is the length of a list, so it is never negative.
  It is a `nat` here, and the counter has no error path.

## Model

| member | source | states |
|---|---|---|
| `Detections.CornerBox` | sistema-contagem-pessoas/main.py:76-77 | a kept row's box starts at the row's start corner, and `x + width`, `y + height` give back the row's end corner, as the drawing at line 93 needs |
| `Detections.KeptIndices` | sistema-contagem-pessoas/main.py:71-73 | the positions of kept rows are in range, are strictly increasing (row order), and each has confidence above the threshold |
| `Detections.KeptIndicesExactly` | sistema-contagem-pessoas/main.py:71-73 | a row is kept if and only if its confidence is strictly greater than 0.5; a row at exactly 0.5 is dropped |
| `Detections.Extract` | sistema-contagem-pessoas/main.py:67-78 | the loop yields equally long box and confidence lists; entry `k` of both comes from the `k`-th kept row, in row order |
| `Detections.ExtractedBoxFromAcceptedRow` | sistema-contagem-pessoas/main.py:72-77 | every extracted box comes from a row with confidence above 0.5 and reproduces that row's corners |
| `Detections.NoAcceptedRowKeepsNothing` | sistema-contagem-pessoas/main.py:71-78 | when no row has confidence above 0.5, no row is kept |
| `Detections.ClassLabelIgnored` | sistema-contagem-pessoas/main.py:71-73 | rows that differ only in class label are kept at the same positions |
| `Suppression.SuppressNonMaximum` | sistema-contagem-pessoas/main.py:39-40 | no returned position gives the empty list; otherwise one box per position, in the order of the positions, each the box at that position |
| `Suppression.NoCandidatesNoSurvivors` | sistema-contagem-pessoas/main.py:39-40 | with no candidate box the library returns no position, so the wrapper returns the empty list |
| `Suppression.SurvivorsAreCandidates` | sistema-contagem-pessoas/main.py:40 | every box returned by the wrapper is one of the candidate boxes |
| `Suppression.SurvivorFromAcceptedRow` | sistema-contagem-pessoas/main.py:67-81 | every box left after extraction and suppression comes from a detector row with confidence above 0.5, and drawing it reproduces that row's corners |
| `Counter.Step` | sistema-contagem-pessoas/main.py:85-89 | after a frame the counter is armed exactly when the frame had no box; the total never drops; it grows exactly when the counter was armed and the frame had boxes, and then by that frame's count |
| `Counter.RunArmed` | sistema-contagem-pessoas/main.py:85-89 | after any run the counter is armed exactly when no frame was seen yet or the last frame had no box |
| `Counter.RunCountIsOnsetSum` | sistema-contagem-pessoas/main.py:53-89 | the total after a run equals the sum, over occupancy episodes, of each episode's first box count |
| `Counter.RunMonotone` | sistema-contagem-pessoas/main.py:85-86 | the total after any prefix of a run is at most the total after the whole run |
| `Counter.OccupiedFramesAddNothing` | sistema-contagem-pessoas/main.py:85-89 | once a frame was occupied, further occupied frames leave total and flag unchanged |
| `Counter.TotalsNonDecreasing` | sistema-contagem-pessoas/main.py:85-94 | the displayed totals never decrease from one frame to a later one |
| `Counter.EdgeTriggerExample` | sistema-contagem-pessoas/main.py:85-89 | the frame counts `[0,0,3,3,0,2]` show the totals `[0,0,3,3,3,5]` |
| `Counter.PeopleCounter.constructor` | sistema-contagem-pessoas/main.py:53-54 | a new counter has total 0 and is armed |
| `Counter.PeopleCounter.Update` | sistema-contagem-pessoas/main.py:84-89 | one frame's update: the total grows by `n` only when armed and `n > 0`; the flag becomes `n == 0`; the state stays equal to the fold `Run` over all frames seen |
| `Pipeline.KeyCode` | sistema-contagem-pessoas/main.py:99 | masking a raw key gives its low byte: a code in 0..255 that differs from the raw value by a multiple of 256; codes already in range are kept, and "no key" (-1) becomes 255 |
| `Pipeline.EmptyFrameKeepsCount` | sistema-contagem-pessoas/main.py:71-89 | a frame with no row above 0.5 leaves no box after suppression; the counter's total stays the same and the counter is re-armed |
| `Pipeline.ProcessFrame` | sistema-contagem-pessoas/main.py:67-89 | one frame: the counter sees exactly one more frame whose count is the number of surviving boxes, and the returned boxes are the suppression result over the extracted boxes |
| `Pipeline.PausedStretchReadsNothing` | sistema-contagem-pessoas/main.py:56-58 | iterations that start paused read no frame, so the counter cannot change during a pause |
| `Pipeline.PauseTwiceRestores` | sistema-contagem-pessoas/main.py:102-103 | two `p` presses in a row leave the pause flag as it was |
| `Pipeline.Tick` | sistema-contagem-pessoas/main.py:56-103 | one pass of the loop body: the end of the video ends the run only when not paused; otherwise one frame is read when unpaused, the pause flag flips on `p`, and `q` ends the run |
| `Pipeline.MainLoop` | sistema-contagem-pessoas/main.py:52-103 | the counter's final state is the fold of the counter over exactly the frames read, in order; frames are read only on unpaused iterations; the run ends on `q`, at the end of the video (then not paused and every frame read), or when the keys run out |

## Left out

- The detection network (`carregar_modelo`, `blobFromImage`, `setInput`, `forward`, lines 19-27 and 63-65) is an external library. Each frame is given as its rows of detector output.
- The internals of `cv2.dnn.NMSBoxes` (line 39) are a library call with floating-point overlap ratios. Each frame carries the positions that call returned. The only requirement is the library's guarantee that every position is a valid position of the candidate boxes. Suppression correctness is not modelled, nor is the order of the returned positions (the library lists them by decreasing confidence).
- `Suppression.SuppressNonMaximum` does not take the confidences and the two thresholds, because only the library call reads them.
- The library's `N x 1` result shape, read as `i[0]` on line 40, is modelled as a flat list of positions.
- The scaling of normalised coordinates by the frame size and the `astype("int")` truncation (lines 74-76) are floating-point operations. Rows start from integer pixel corners.
- Video capture, the frame read result, `imshow`, rectangle and text drawing, the 30 ms key wait, `release` and `destroyAllWindows` (lines 50, 58, 93-99, 106-107) are I/O. A failed read is modelled as the end of the frame sequence.
- `verificar_opencv` (lines 10-16) only prints a version and is not modelled.
- `Pipeline.MainLoop`: the source loop runs until `q` or the end of the video, possibly forever while paused. The model's key stream is finite, so the loop also stops when the keys run out (`KeysExhausted`).
