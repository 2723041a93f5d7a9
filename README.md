# pi-birdcam motion scoring, reference refresh and configuration loading

A bird-box camera takes one still per run. It compares the still with a
stored reference frame to get a motion score. A threshold on that score gives
a binary mode flag, and the image is uploaded when the flag is set. This
project models the parts of that run that hold logic:

- `Motion` (`motion.dfy`) models the packaged scorer `detect_motion`. Its score
  is the percentage of compare-size grey pixels whose difference is strictly
  greater than a per-pixel noise floor. The class `MotionDetector` holds the
  reference frame and the time it was last written, and replaces the reference
  only on motion, on staleness, or while no update time has been recorded. A
  missing reference is initialised from the current frame, with score 0.
- `EnvConfig` (`env_config.dfy`) models `_load_env_file`. Each line of the
  dotenv file is stripped. Blank and `#` lines are skipped. The rest is split
  at the first `=`, and `setdefault` stores the stripped key and value in the
  environment map. `Environment.LoadEnvFile` is the loop. `LoadEnv` is the
  fold it is proved against, and `FirstValue` is an independent
  "first line wins" reading of the file.
- `Thumbnail` (`thumbnail.dfy`) holds the movement figure shared by the two
  legacy scripts: the mean absolute difference over a 4x3 grey thumbnail,
  accumulated by a loop over columns with an inner loop over rows.
  `ColumnsIsTotal` proves that this loop order gives the plain sum over the
  row-major buffer.
- `ActivityLog` (`activity_log.dfy`) holds the `timestamp;score;mode;response`
  log line, together with a parser that gets the fields back.
- `MeisenCamScript` (`meisencam_script.dfy`) models `meisencam.py`, which
  refreshes the old image by copying, with threshold 1.0.
- `MoveDetection` (`movedetection.dfy`) models `movedetection.py`, which
  refreshes it by renaming, with threshold 35 and a mode-flagged upload URL.
  `Run` is the cycle as written, which always fails (see Findings).
  `RunCorrected` is the same cycle with the rename replaced by a copy.
- `Common` (`common.dfy`) holds `Option`, `Result`, grey values, the mode rule
  `score > threshold` and Python's `str.partition`.

Images enter the model as the grey sequences PIL produces after decoding,
resizing and (for the packaged scorer) blurring. A file slot holding an image
is `Some(pixels)`, and an absent file is `None`. The packaged scorer receives
the current frame by value, so it can only copy the frame and never change it.

The model follows the code on these points:

- A pixel counts as changed only when its difference is strictly above the
  noise floor, as "exceeds" in the docstring of `detect_motion` says. A
  difference equal to the floor scores 0.
- The settings `detect_motion` reads (compare width and height, pixel
  threshold, blur radius, reference maximum age) are not defined in
  `src/meisencam/config.py`. The model takes them as a `MotionConfig` value.
- The docstring of `meisencam.py` names 35 as the threshold, but the code
  uses 1.0. The model uses 1.0 there and 35 in `movedetection.py`.

## Model

| member | source | states |
|---|---|---|
| `Motion.ChangedCount` | src/meisencam/motion.py:62-64 | the number of changed pixels never exceeds the number of pixels compared |
| `Motion.ChangedCountIsCardinality` | src/meisencam/motion.py:62-64 | the count equals the size of the set of positions whose difference is strictly above the noise floor |
| `Motion.Score` | src/meisencam/motion.py:58-66 | the score lies in [0, 100]; it is 0 exactly when no pixel changed and 100 exactly when every pixel changed |
| `Motion.ScoreZeroIff` | src/meisencam/motion.py:62-66 | the score is 0 if and only if every absolute difference is at most the noise floor, however large those differences are |
| `Motion.ScoreHundredIff` | src/meisencam/motion.py:62-66 | the score is 100 if and only if every absolute difference is strictly above the noise floor |
| `Motion.IdenticalScoresZero` | tests/test_motion.py:28-36 | a frame compared with itself scores 0 for any non-negative noise floor |
| `Motion.ScoreSymmetric` | src/meisencam/motion.py:63 | swapping current and reference frames does not change the score |
| `Motion.SolidFramesScore` | tests/test_motion.py:48-60 | two solid frames score exactly 100 when their colours differ by more than the floor, otherwise 0 |
| `Motion.RefreshDue` | src/meisencam/motion.py:69-73 | a refresh is due on motion and while the update time is 0; for a quiet frame with a positive update time it is due exactly when that time is strictly older than the maximum age; a negative update time never expires |
| `Motion.RefreshStaysDue` | src/meisencam/motion.py:70-71 | a refresh that is due stays due at any later clock time |
| `Motion.MotionDetector.constructor` | src/meisencam/motion.py:21 | at module load the update time is 0 ("never set") and the reference is whatever file is on disk |
| `Motion.MotionDetector.DetectMotion` | src/meisencam/motion.py:24-80 | a missing current file fails and changes nothing; a missing reference becomes the current frame with update time now and score 0; otherwise the score is `Score`, and the reference and update time become (current, now) exactly when the score exceeds the motion threshold, the non-zero update time is strictly older than the maximum age, or the update time is 0, and are otherwise unchanged |
| `EnvConfig.Strip` | src/meisencam/config.py:15 | the result has no whitespace at either end, leaves stripped text unchanged, and keeps a non-whitespace first or last character |
| `EnvConfig.StripIsSlice` | src/meisencam/config.py:15 | stripping keeps a contiguous slice and removes only whitespace; it yields the empty string exactly when the line is all whitespace |
| `EnvConfig.ParseLine` | src/meisencam/config.py:15-20 | a line that yields an entry yields a non-empty, stripped key without `=` and a non-empty, stripped value |
| `EnvConfig.ParseLineSkips` | src/meisencam/config.py:16-19 | blank lines, `#` comments, lines without `=`, and lines whose part before or after the first `=` is empty (`=v`, `k=`) yield no entry |
| `EnvConfig.StripPadded` | src/meisencam/config.py:15 | a word with whitespace of any kind on either side strips back to the word |
| `EnvConfig.ParseLineSplit` | src/meisencam/config.py:15-20 | a line whose stripped text is `head=tail`, with a head that is non-empty, free of `=` and not a comment, and a non-empty tail, yields the stripped head and the stripped tail |
| `EnvConfig.ParseLinePadded` | src/meisencam/config.py:14-20 | a line as the file yields it, with whitespace before the key, around the `=` and after the value (the trailing newline included), yields exactly the bare key and value |
| `EnvConfig.ParseLineRoundTrip` | src/meisencam/config.py:18-20 | `key=value` yields exactly (key, value), even when value holds further `=` characters |
| `EnvConfig.FirstValueIsFirst` | src/meisencam/config.py:20 | the first-line reading returns the value of an entry for the key with no earlier entry for it, and returns nothing exactly when no entry names the key |
| `EnvConfig.LoadEntriesLookup` | src/meisencam/config.py:13-20 | after loading, a name already in the environment keeps its value, any other name has the value of its first line in the file, and names the file never sets stay absent |
| `EnvConfig.LoadedEntriesWellFormed` | src/meisencam/config.py:15-20 | every name the file adds, and its value, is non-empty and whitespace-stripped |
| `EnvConfig.Environment.SetDefault` | src/meisencam/config.py:20 | an existing name is left alone; a new name gets the value |
| `EnvConfig.Environment.LoadEnvFile` | src/meisencam/config.py:9-20 | a missing file leaves the environment unchanged; otherwise the environment becomes `LoadEnv` of the old environment and the file's lines |
| `Common.Partition` | src/meisencam/config.py:18 | the head holds no separator; with a separator the input is head + separator + tail, without one the head is the whole input |
| `Common.PartitionUnique` | src/meisencam/config.py:18 | splitting `head + sep + tail` with no `sep` in head gives exactly head and tail |
| `Common.Mode` | meisencam.py:149 | the mode is 1 exactly when the score is strictly above the threshold, else 0 |
| `Thumbnail.SumAbsDiff` | meisencam.py:103-106 | the nested column/row loop accumulates exactly the total absolute difference of the two thumbnails |
| `Thumbnail.ColumnsIsTotal` | meisencam.py:104-106 | summing column by column equals summing the row-major buffer in order |
| `Thumbnail.MeanAbsDiff` | meisencam.py:85 | the figure is non-negative and at most 255 for grey thumbnails |
| `Thumbnail.MeanAbsDiffZeroIff` | meisencam.py:106 | the figure is 0 if and only if the two thumbnails are identical |
| `Thumbnail.MeanAbsDiffSymmetric` | meisencam.py:106 | the figure does not depend on which thumbnail is the old one |
| `ActivityLog.ModeText` | meisencam.py:139 | the mode prints as one character, "1" exactly for mode 1 |
| `ActivityLog.LogEntry` | meisencam.py:139 | the line ends in a newline and holds no other when no field does, so one entry is one line (movedetection.py:105 writes the same format) |
| `ActivityLog.LogEntryRoundTrip` | meisencam.py:139 | a log line gives back its timestamp, score, mode and response text when the first three hold no semicolon |
| `Thumbnail.Movement` | meisencam.py:87-113 | the figure of a cycle lies in [0, 255] and is 0 exactly when there is no old image yet or the old thumbnail equals the new one |
| `Thumbnail.ComputeMovement` | meisencam.py:98-108 | the nested loop and the division by 12 compute `Movement`, with 0 when there is no old image |
| `MeisenCamScript.MeisenCam.CalculateMovement` | meisencam.py:76-113 | a missing current image fails with the old image unchanged; otherwise the old image becomes a copy of the current one, the current image stays, and the figure is `Movement` of the capture and the old image |
| `MeisenCamScript.MeisenCam.LogActivity` | meisencam.py:137-141 | with a response the log grows by exactly the line for these fields; without one it fails and the log is unchanged |
| `MeisenCamScript.MeisenCam.Run` | meisencam.py:143-157 | a cycle always succeeds: both slots end up holding the capture, and the log grows by one line carrying the figure and its mode under threshold 1.0 |
| `MoveDetection.UploadUrl` | movedetection.py:94-95 | every upload URL starts with the share URL and ends with `?mode=1` exactly when the mode is non-zero |
| `MoveDetection.MeisenCam.CalculateMovement` | movedetection.py:64-90 | a missing current image fails and changes nothing; otherwise the old slot receives the capture, the current slot becomes empty, and the figure is `Movement` of the capture and the old image |
| `MoveDetection.MeisenCam.UploadImage` | movedetection.py:92-101 | opening a missing current image fails; otherwise the request carries the image and the mode-selected URL |
| `MoveDetection.MeisenCam.Run` | movedetection.py:109-120 | every cycle ends with the current slot empty, the old slot holding the capture, a file-not-found failure and an unchanged log |
| `MoveDetection.MeisenCam.CalculateMovementCopying` | movedetection.py:64-90 | as `CalculateMovement`, but the old slot receives a copy of the capture and the current slot keeps it |
| `MoveDetection.MeisenCam.LogActivity` | movedetection.py:103-107 | the log grows by exactly the line for the cycle's fields |
| `MoveDetection.MeisenCam.RunCorrected` | movedetection.py:109-120 | with the copy in place of the rename, a cycle posts the capture to `UploadUrl` of its mode under threshold 35, both slots hold the capture, and the log grows by exactly one line carrying the figure and its mode |

## Findings

| source | as written | input that shows it | evidently intended | confidence | as-written member | corrected member |
|---|---|---|---|---|---|---|
| movedetection.py:88 | `calculate_movement` renames the current image onto the old one, so the `upload_image` that `run` calls next (movedetection.py:97, 119) cannot open it, and the cycle never uploads or logs | any cycle with a captured image | the captured image is uploaded and a log line is written; meisencam.py copies instead of renaming (meisencam.py:110-111) | high, not executed | `MoveDetection.MeisenCam.Run` | `MoveDetection.MeisenCam.RunCorrected` |

## Left out

- PIL decoding, grey conversion, resizing and Gaussian blur are left out. The model starts from the grey sequences these produce. A corrupt image file is therefore not modelled, and neither is the effect of JPEG artefacts on the score.
- Floating point is left out. The score, the thumbnail mean and the clock are exact `real` values, so float rounding is not modelled.
- The clock is left out. `DetectMotion` takes one `now` for both of its clock reads (src/meisencam/motion.py:70 and 75), which the source takes separately.
- The camera (src/meisencam/camera.py, testcam.py, `capture_image`), GPIO and sensor waits are hardware glue and are left out. A capture is the `frame` and timestamp given to `Run`.
- HTTP is left out: the WebDAV PUT in src/meisencam/upload.py, the upload in meisencam.py and the POST in movedetection.py. Only opening the file and choosing the URL are modelled. The server's response text is an input.
- MeisenCamScript.MeisenCam.Run: network and server failures of the upload are not modelled, because the request is not part of the model.
- How Python prints the movement figure is left out. `Run` takes the rendering as a function `render`. The source prints the integer 0 as "0" on the missing-reference path and a float otherwise.
- Command-line handling, the orchestration and log append in src/meisencam/__main__.py, and `logging` are left out. The mode rule in `__main__` is the same `Common.Mode`.
- `_int`, `_float` and the module-level constants of src/meisencam/config.py are left out. They are numeric parsing of environment strings.
- EnvConfig.Environment.LoadEnvFile: the file is its sequence of lines, so text decoding is not modelled. Neither is the `ValueError` that `os.environ` raises for names or values containing a NUL character.
- Motion.MotionDetector.DetectMotion: frames are required to have the compare size, because PIL's resize guarantees it; the compare size must be non-zero (otherwise the source divides by zero).
