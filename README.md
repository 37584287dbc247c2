# People counter occupancy model

A Dafny model of the per-frame occupancy logic of PeopleCounterApp. For each
video frame the program receives a list of detection scores from an object
detector and does four things:

- it counts the scores strictly above the probability threshold;
- it keeps a lifetime peak of that count;
- it debounces presence with two run-length counters, so that presence flips
  only after 20 consecutive consistent frames;
- when a presence episode ends, it adds the peak to the people total, adds
  the elapsed time to a running sum, and recomputes the average dwell time
  with Python's `round`.

Every inferred frame publishes the live count and the total on topic
`person`, and publishes the duration on `person/duration` when it is non-zero.

Modules:

- `Detections` (detections.dfy): the score count `CountAbove` and the scanning
  loop `ScanFrame`.
- `Rounding` (rounding.dfy): `RoundDiv`, Python's `round(a / b)`, which rounds
  half to even. It is stated exactly on integers.
- `Occupancy` (occupancy.dfy): the state machine as functions on a `State`
  value. `Next` is one frame and `Run` is a sequence of frames. This module
  holds the lemmas about debouncing, dwell accounting and publishing. The
  confirmation window is a parameter `k >= 1`; the program's value is
  `ConfirmFrames` = 20.
- `PeopleCounter` (people_counter.dfy): the class `Counter` whose fields are
  the loop's locals. Its `Step` method changes them in place, as the loop
  does. A ghost history of frames ties the fields to `Run`, so every
  `Occupancy` lemma also holds for the object.
- `InputSource` (input_source.dfy): classification of the `--input` argument.

The clock `time.time()` is an integer parameter `now` of `Step`. The
detector's scores come in as a `seq<real>`.

The model keeps these quirks of the code:

- The peak count is never reset between episodes.
- The average is the time sum divided by `total_people_count` (the sum of
  the peaks), not by the number of episodes.
- The `total` field of the `person` payload is that people total.

## Model

| member | source | states |
|---|---|---|
| `Detections.CountAbove` | main.py:168-173 | the people count never exceeds the number of scores |
| `Detections.CountAboveIsCardinality` | main.py:171-173 | the people count equals the number of positions whose score is strictly above the threshold |
| `Detections.DetectionFrameIff` | main.py:171-178 | a frame counts at least one person exactly when some score is strictly above the threshold (both directions) |
| `Detections.CountAbovePermutation` | main.py:171-173 | reordering the detections does not change the count |
| `Detections.ScanFrame` | main.py:168-180 | the loop returns the count of scores above the threshold, the old peak raised to that count when it is larger, and whether any detection was accepted |
| `Rounding.RoundDiv` | main.py:211 | the result is within one half of a / b, and is even when a / b lies exactly half-way (Python's round-half-to-even) |
| `Rounding.RoundDivUnique` | main.py:211 | any integer with those two properties is the one RoundDiv returns |
| `Occupancy.Next` | main.py:168-215 | one frame, built from `Occupancy.Counted` (the peak and run-length updates, main.py:179-190) and `Occupancy.EventOf` (the `if`/`elif` branch selection, main.py:196-215), keeps the invariant: one run counter is zero; absent implies the detection run is below the window and the tracker is 0; present implies the empty run is below the window and the peak is at least 1; the duration is 0 before any people are counted and is the rounded average afterwards. The divisor at main.py:211 is therefore positive |
| `Occupancy.Run` | main.py:143-223 | the invariant holds after any sequence of frames, starting from `Occupancy.Init` (the initial locals, main.py:94-107) or any state that satisfies it |
| `Occupancy.Episodes` | main.py:204-215 | every ended episode carries a peak of at least 1 |
| `Occupancy.CountersStep` | main.py:185-215 | a detection frame extends the detection run and clears the empty run; an empty frame does the reverse; a transition clears both; after each frame one of them is zero |
| `Occupancy.StartIff` | main.py:196-202 | absent to present fires exactly when absent, the frame is a detection frame and it completes the window; it sets presence, records `now` and clears both runs, and leaves the totals alone |
| `Occupancy.EndIff` | main.py:204-215 | present to absent fires exactly when present, the frame is empty and it completes the window; it adds the peak to the total, adds `now - start` to the sum, sets the duration to the rounded average, and clears the runs and the tracker |
| `Occupancy.StatsOnlyOnEnd` | main.py:204-211 | total, time sum and duration change only on a present-to-absent transition |
| `Occupancy.StartsAfterWindow` | main.py:185-202 | from absent, n consecutive detection frames start an episode iff the run reaches exactly the window, never earlier; the start time is the last frame's clock |
| `Occupancy.EndsAfterWindow` | main.py:185-215 | from present, n consecutive empty frames end the episode iff the run reaches exactly the window; the single episode end records the elapsed time since the start and the peak |
| `Occupancy.FlickerIgnored` | main.py:185-215 | while present, a gap of fewer than k empty frames followed by a detection frame keeps presence, clears the empty run and accounts nothing |
| `Occupancy.StatsUnchangedWithoutEpisodes` | main.py:204-215 | frames that end no episode leave total, time sum and duration unchanged |
| `Occupancy.RunStats` | main.py:207-211 | the total is the sum of the ended episodes' peaks and the time sum is the sum of their elapsed times; the total is at least the number of episodes |
| `Occupancy.AverageFromStart` | main.py:102-107 | from the initial state, the duration is 0 until an episode ends, and afterwards is round(sum of elapsed times / sum of peaks) |
| `Occupancy.PublishPolicy` | main.py:221-223 | topic person carries the frame's live count and the people total; the duration topic is published exactly when an episode has ended and the rounded average is non-zero, and then carries that average |
| `Occupancy.PeakIsMaximum` | main.py:179-180 | the peak is never reset: it is the largest per-frame count seen so far (or its earlier value) |
| `Occupancy.PeakMonotone` | main.py:179-180 | the peak never decreases as frames are added |
| `Occupancy.RunsBounded` | main.py:185-190 | the run counters never exceed the actual trailing run of detection or empty frames |
| `Occupancy.TransitionsNeedWindow` | main.py:185-215 | an episode starts only after k trailing detection frames and ends only after k trailing empty frames |
| `Occupancy.PresentKeepsStart` | main.py:196-215 | while no episode ends, presence holds and the tracker keeps the start time |
| `Occupancy.EpisodeElapsed` | main.py:199-210 | the time an episode adds to the sum is the clock at its end minus the clock at its start |
| `Occupancy.ExampleRun` | main.py:185-215 | with a window of 2 and frames T,T,F,F,T,T,T,F,F at clock 0..8, episodes end with elapsed times 2 and 3, the total is 2 and the duration is round(5 / 2) = 2 |
| `PeopleCounter.Counter.constructor` | main.py:94-107 | all locals start at false or 0 |
| `PeopleCounter.Counter.Step` | main.py:165-223 | one frame updates the fields exactly as `Occupancy.Next` on the frame's count, keeps the fields equal to the run over the history, and returns the `person` payload and the optional duration payload as `Occupancy.Publish` (the payload decision, main.py:221-223) gives them |
| `PeopleCounter.Counter.CountFrame` | main.py:168-193 | the scan and the run-length update change the fields as the counting part of a step |
| `PeopleCounter.Counter.Transition` | main.py:196-215 | the `if`/`elif` turns the counted fields into the state `Occupancy.Next` describes |
| `InputSource.Classify` | main.py:126-136 | "CAM" selects the camera; otherwise a name ending in ".jpg" or ".png" is a single image; anything else is a video; the path is kept |
| `InputSource.ImageNames` | main.py:130-133 | names with either image extension are single images; the test is case-sensitive |
| `InputSource.SingleImageHasExtension` | main.py:130-133 | conversely, every input read as a single image is some name followed by ".jpg" or ".png" |

## Left out

- inference.py is not part of this model. It only wraps the inference engine (model loading, asynchronous requests, output lookup).
- The MQTT connection and delivery (main.py:73-79). `Step` returns the payloads that would be published; sending them is not modelled.
- Video capture, resizing, box drawing, image writing and the frame sent to the video sink (main.py:138-152, 174-177, 226-236). These are I/O.
- Argument parsing, host lookup and the timing prints (main.py:39-70, 115-118, 157, 182, 232-233). These are bootstrap code and I/O.
- Extracting the scores from the output tensor (main.py:165). The scores are a parameter of `Step`.
- The frame whose inference wait fails (main.py:162). It changes no state and publishes nothing, so it corresponds to not calling `Step`.
- The `if input_file:` guard before `cap.open` (main.py:139-140). It only concerns the capture library.
- Detection scores are float32 values in the program and reals in the model. A NaN score, which the comparison `prob > prob_threshold` never accepts, has no counterpart.
- `time.time()` returns a float. The model uses integer ticks, so the float quotient and its rounding error are not modelled; `RoundDiv` rounds the exact quotient.
- Python integers are unbounded, like Dafny's, so no wrap-around is modelled.
