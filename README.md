# Squat rep counter of the Lifty backend, in Dafny

`process_video` in `backend/app/services/video_service.py` of the Lifty backend
takes an uploaded exercise video (a FastAPI `UploadFile`) and reads it frame by
frame. It runs a pose model on each frame and computes the hip angle
(shoulder, hip, knee). A two-state hysteresis machine then counts squat reps
over those angles:

- a frame with an angle below 90° sets `going_down`;
- a frame with an angle above 160° counts a rep when `going_down` is set, clears
  `going_down` and appends one numbered message `"Rep k: ..."` to `feedback`;
- a frame where the pose model found no landmarks is skipped but still counted
  in `frames_analyzed`.

The function returns `frames_analyzed`, `reps_detected` and `feedback`. If no
message was recorded, `feedback` is replaced by the single message
`"No reps detected, check your form!"`.

The model has three modules:

- `Wrappers` holds an `Option` type.
- `Decimal` renders a `nat` in decimal, as Python's `f"{n}"` does for an `int`, and reads it back.
- `VideoService` holds the machine.

The frames of a video become a `seq<Frame>`. A `Frame` is either `NoLandmarks`
or `Landmarks(hipAngle)`, with the angle as a `real`.

`VideoService.ProcessVideo` is the `while` loop itself, over the locals
`frame_num`, `going_down`, `rep_count` and `feedback`. It is proved equal to the
specification function `Analyze`. `Analyze` is built from `Step` (one loop
iteration, with the two tests in the source's order), `Run` (the loop) and
`Report` (the returned dictionary).

`ArmedAt`, `CountsAt` and `RefCount` give a second, stateless definition of the
machine. Frame `j` completes a rep exactly when it is a standing frame (above
160°) and some earlier bottom frame (below 90°) has no standing frame between it
and `j`. The lemmas `ArmedIff`, `CountingFrameIff` and
`RepCountMatchesReference` prove that the machine agrees with it.

The `hip_angle < 80` test on the counting frame can never be true, because that
frame's angle is above 160. `Step` and `ProcessVideo` keep the branch as
written. `Step`'s contract proves that only `"Rep k: Good form!"` is ever
appended.

`process_video` counts squats only, and it keeps no rep that is still
unfinished when the video ends: a video that ends half-way down counts no rep
for that descent (`NoFlushAtEnd`).

## Model

| member | source | states |
|---|---|---|
| VideoService.ProcessVideo | backend/app/services/video_service.py:31-78 | the loop over the frames returns exactly `Analyze(frames)`, so every property stated for `Analyze` holds of what the loop returns |
| VideoService.Analyze | backend/app/services/video_service.py:33-78 | `frames_analyzed` counts every frame; `reps_detected` equals the reference count of rep-completing frames; `feedback` is never empty; with zero reps it is exactly the fallback message, otherwise it is the messages of reps 1..n in order; twice the rep count is at most the number of frames with landmarks |
| VideoService.Step | backend/app/services/video_service.py:47-70 | one frame raises `rep_count` by one exactly when the machine is armed and the angle is above 160, and leaves it unchanged otherwise; `going_down` is afterwards "still armed and not standing" if armed, "angle below 90" if not, so at most one transition happens per frame; only a "Good form!" message numbered with the new count is ever appended; a frame without landmarks or with an angle in [90, 160] changes nothing |
| VideoService.Report | backend/app/services/video_service.py:74-78 | the result carries the frame counter and `rep_count`; its `feedback` is never empty: it is the recorded messages when there are any, and exactly the fallback message when there are none |
| VideoService.RepFeedback | backend/app/services/video_service.py:68-70 | a per-rep message `"Rep {k}: ..."` reads back as rep k with its verdict, so distinct reps get distinct messages |
| VideoService.Run | backend/app/services/video_service.py:37-70 | after any sequence of frames, `feedback` holds exactly one message per counted rep, the k-th naming rep k with "Good form!" |
| VideoService.RepLogAt | backend/app/services/video_service.py:63-70 | entry i of the per-rep log is the "Good form!" message of rep i + 1 |
| VideoService.ArmedIff | backend/app/services/video_service.py:58-65 | after j frames `going_down` holds if and only if some frame below 90 is followed by no frame above 160 |
| VideoService.CountingFrameIff | backend/app/services/video_service.py:61-65 | frame j raises `rep_count` (by exactly one) if and only if it is above 160 and an earlier frame below 90 has no frame above 160 after it; otherwise it leaves the count unchanged |
| VideoService.RepCountMatchesReference | backend/app/services/video_service.py:61-65 | after n frames `rep_count` equals the number of rep-completing frames among them |
| VideoService.CountBound | backend/app/services/video_service.py:47-65 | twice `rep_count`, plus one while armed, is at most the number of frames with landmarks: every rep uses its own arming frame and its own counting frame |
| VideoService.RunPrefixGrows | backend/app/services/video_service.py:63-70 | `rep_count` never decreases from one frame to a later one, and the earlier `feedback` is a prefix of the later one |
| VideoService.InertFramesIgnored | backend/app/services/video_service.py:47-63 | removing the frames without landmarks and the frames with an angle in [90, 160] leaves the final state unchanged |
| VideoService.SkippedFramesOnlyCounted | backend/app/services/video_service.py:47-63 | removing the frames without landmarks and those with an angle in [90, 160] changes the result only in `frames_analyzed` |
| VideoService.FeedbackNumbered | backend/app/services/video_service.py:64-77 | each returned feedback entry i reads back as rep i + 1 with "Good form!" when reps were counted; the fallback message reads back as no rep at all |
| VideoService.NoRepsMessageIsNotPerRep | backend/app/services/video_service.py:77 | the fallback message cannot be mistaken for a per-rep message |
| VideoService.NoFlushAtEnd | backend/app/services/video_service.py:37-40 | for every video, a last frame that is not above 160 adds no rep and no message; if it is below 90 the video ends armed, and the unfinished descent still counts no rep |
| VideoService.OneRep | backend/app/services/video_service.py:47-70 | standing, a frame without landmarks, the bottom, half-way up and standing again give 5 frames, 1 rep and the single message "Rep 1: Good form!" |
| Decimal.NatToDecimal | backend/app/services/video_service.py:68-70 | the rendered rep number is a non-empty string of decimal digits with no leading zero |
| Decimal.DecimalRoundTrip | backend/app/services/video_service.py:68-70 | reading the rendered rep number as decimal gives back the number |
| Decimal.NatToDecimalInjective | backend/app/services/video_service.py:68-70 | two rep numbers render the same if and only if they are equal |

## Left out

- `calculate_angle` (backend/app/services/video_service.py:11-21) is floating-point geometry (`math.hypot`, `math.acos`, `math.degrees`). The angle is an input of each `Landmarks` frame. Its degenerate-case result `0` is below 90, so such a frame arms the machine like any bottom frame. The `ValueError` that `math.acos` raises when rounding pushes its argument past ±1 is not modelled.
- Saving the upload to a temporary file, `cv2.VideoCapture` and `cap.read()`, the BGR to RGB conversion, the mediapipe `Pose` model, landmark indexing and `cap.release()` (backend/app/services/video_service.py:1-9, 24-30, 37-38, 43-45, 48-55, 72) are I/O and foreign libraries. The frames arrive as a finished sequence, and the end of that sequence stands for `cap.read()` returning no frame.
- The `async` form of `process_video` is not modelled: the function does no concurrent work.
- `Float` angles are modelled as exact `real` numbers, so rounding and NaN are not modelled. A NaN angle fails every comparison in the source and would act like a frame in [90, 160].
- backend/app/main.py (application and router wiring), backend/app/services/video_services.py (writes the upload under a random `uuid4` name) and backend/app/api/videos.py (an HTTP route) hold no logic of the rep counter. They are not part of this model.
- The upload route in backend/app/api/videos.py does not call `process_video`: it calls a `handle_upload` that backend/app/services/video_service.py does not define. The `handle_upload` in backend/app/services/video_services.py only stores the file. Nothing in backend/app/main.py, backend/app/api/videos.py or backend/app/services/video_services.py calls `process_video`, so the model starts at the function itself.
