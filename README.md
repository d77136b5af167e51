# subway_ai — a Dafny model of the labelling, dispatch and data-preparation core

subway_ai learns to play Subway Surfers on an Android phone. It has four
stages:

1. **Recording.** `gather_data.py` watches the phone's touch events through `adb shell getevent -l`. It turns each position event into a swipe direction and keeps the last one. After half a second without a move it falls back to "running". Every screenshot is filed under the current label.
2. **Preparing data.** `extract_frames.py` keeps every fifth frame of recorded videos as `frame_NNNNNN.jpg`. `label_frames.py` lets a person label those frames with single key presses. `preprocess.py` encodes the labels as class indices.
3. **Training.** `train.py` splits the batched dataset 80/20 and derives the step counts.
4. **Playing.** `run_inference.py` screenshots the game and takes the classifier's argmax as the action. `adb_controller.py` turns that action into one `adb shell input swipe`.

The model replaces every foreign call with an input or with a logged argument vector:

- A subprocess call becomes the argument vector it would run, appended to the controller's `log`.
- The getevent output becomes a sequence of lines, each with the clock reading (ms) taken when it is read.
- `cv2.imread` becomes a readability flag per frame or per round.
- `cv2.waitKey` becomes a sequence of key codes.
- `VideoCapture` becomes an "opened" flag and a count of readable frames.
- The classifier becomes the row of reals it outputs.
- A Python exception becomes an `Errors.Error` value: `Result.Err`, or `Outcome.Fail`.

Each imperative part of the source is a Dafny method over the same state. This covers the recording loop, the agent loop, the labeller's loop and resume search, the frame counter loop, the encoder's list-building loop and the adb search. Each method is proved equal to a recursive function. The properties are lemmas about those functions.

Module `LabelSets` states how the stages' label vocabularies fit together. The agent's `action_map` and the encoder's `label_map` are inverse, and the labeller, the dispatcher and the encoder agree on five labels. The model keeps three mismatches the code has:

- The recorder files "up" frames where every other stage says "jump". "up" raises ValueError in dispatch and KeyError in encoding.
- The labeller keys labels by bare file name. Frame names restart at `frame_000000.jpg` in every video's directory, so equal frame numbers from different videos share one label.
- The encoder looks for a frame directly under the frames directory, not under the video's sub-directory where extraction wrote it.

Three behaviours of the code are easy to misread; the model follows the code:

- **Event reading blocks.** The inner loop at `gather_data.py:76-84` calls `readline` until it returns an empty string, so a pass waits on the event process instead of polling it. The model's `Drain` consumes lines up to the first empty one, and reports `Blocked` when the supplied lines run out before one.
- **The agent does not skip bad cycles.** An unreadable screenshot raises out of the agent loop (`run_inference.py:51-65`): `Unreadable` gives `Fail(ForeignCallError)`, and `stop_game` then runs in `finally`. An unreadable screenshot in the recorder does skip the cycle: it saves nothing.
- **Labels outside the five occur.** The recorder files frames under "up" (`gather_data.py:13`), a label no other stage accepts.

## Model

| member | source | states |
|---|---|---|
| GatherData.Zone | subway_ai/gather_data.py:40-49 | the first third (3v < size) gives the low move, the last third (3v > 2·size) the high move, the middle third none, and no other move occurs: a value exactly on size/3 is not in the first third; X uses left/right, Y up/down |
| GatherData.ParseTouchEvent | subway_ai/gather_data.py:34-50 | the only error is ValueError (non-hex value), and every move is one of left/right/up/down |
| GatherData.TokenPrecedence | subway_ai/gather_data.py:38-50 | an X token decides even when the line also has a Y token (only left/right then); a line with neither token is no move and never raises; up/down only come from a line without the X token |
| GatherData.Coordinate | subway_ai/gather_data.py:39 | the value after the last token, stripped, read in base 16; failure is ValueError |
| GatherData.TouchLineX | subway_ai/gather_data.py:38-43 | a getevent X line carrying hex value v reads as the horizontal zone of v |
| GatherData.TouchLineY | subway_ai/gather_data.py:44-49 | a getevent Y line carrying hex value v reads as the vertical zone of v |
| GatherData.ParseScreenSize | subway_ai/gather_data.py:61-63 | IndexError exactly when the `wm size` output is blank; otherwise ValueError or the two numbers of the last word split on 'x' |
| GatherData.ScreenSizeOf | subway_ai/gather_data.py:63 | `Physical size: <w>x<h>` (any prefix ending in whitespace, any trailing whitespace) parses back to (w, h) |
| GatherData.TouchMovesInActions | subway_ai/gather_data.py:13 | every move `parse_touch_event` returns names one of the five label directories |
| GatherData.Observe | subway_ai/gather_data.py:81-84 | a move replaces the label and takes the line's clock reading; a non-move changes nothing; the error is the parser's |
| GatherData.Drain | subway_ai/gather_data.py:76-84 | a pass stops at the first empty line, and every line before it is non-empty; blocks when no empty line comes; an error comes from a line of the pass |
| GatherData.DrainLastMoveWins | subway_ai/gather_data.py:76-84 | after a pass, the label and time are those of the last move read; without a move they are unchanged |
| GatherData.DrainReadsOk | subway_ai/gather_data.py:76-81 | a pass that reached the end of the stream read every line without an exception |
| GatherData.DrainAtEof | subway_ai/gather_data.py:76-79 | once the stream has ended, later passes read nothing and keep the tracker |
| GatherData.DrainKeepsActions | subway_ai/gather_data.py:81-84 | a pass keeps the label among the five directories |
| GatherData.Decay | subway_ai/gather_data.py:86-88 | more than 500 ms since the move makes the label "running"; otherwise it is kept; the move's time is kept |
| GatherData.DecayLater | subway_ai/gather_data.py:86-88 | decaying at two times is decaying at the later one; once "running" it stays so until the next move |
| GatherData.DecayIsStrict | subway_ai/gather_data.py:87 | exactly 500 ms after a move the label is kept; 501 ms after, it is "running" |
| GatherData.Record | subway_ai/gather_data.py:71-97 | one screenshot per round, at most one frame per screenshot, at least one screenshot when a round runs |
| GatherData.RecordLabelsInActions | subway_ai/gather_data.py:67-92 | starting from "running", every saved frame lies in one of the label directories created at start-up |
| GatherData.RecordAfterEof | subway_ai/gather_data.py:71-97 | after the event process ends, every round completes: one screenshot each and one frame per readable screenshot |
| GatherData.Screenshots | subway_ai/gather_data.py:73 | n rounds issue 3n screenshot commands |
| GatherData.DataGatherer.DrainEvents | subway_ai/gather_data.py:76-84 | the inner `while` loop computes `Drain` |
| GatherData.DataGatherer.ReadScreenSize | subway_ai/gather_data.py:61-63 | issues `wm size`; a non-zero exit status gives CalledProcessError, otherwise the result is the parse of the output (passed in; `gather_data` passes `ParseScreenSize`); the screen fields are set on success and unchanged on any error |
| GatherData.DataGatherer.GatherData | subway_ai/gather_data.py:58-97 | a failing `wm size` (CalledProcessError) or an unparsable output raises before getevent starts, leaving the screen fields and saved frames as they were; otherwise the screen fields are set, the saved frames and outcome are those of `Record` from "running", and the log is wm size, getevent, then three commands per screenshot |
| GatherData.DataGatherer.RecordingLoop | subway_ai/gather_data.py:67-97 | the outer `while True` loop computes `Record` and leaves the screen size alone |
| GatherData.DataGatherer.LoopRound | subway_ai/gather_data.py:67-97 | one pass of the outer loop keeps the loop's account: saved frames and issued commands cover one more round, and the rest of the session follows from the new stream position and tracker |
| GatherData.DataGatherer.RecordRound | subway_ai/gather_data.py:73-97 | one round: screenshot, drain, idle rule, save if readable; a blocked or raising pass saves nothing and ends the loop |
| GatherData.RecordStep | subway_ai/gather_data.py:73-97 | a completed round saves the frame under the decayed label and hands its tracker to the next round |
| GatherData.RecordStops | subway_ai/gather_data.py:76-84 | a pass that meets no end of stream is the last round |
| AdbController.SwipeCommand | subway_ai/inference/adb_controller.py:36-50 | a swipe is `adb shell input swipe` followed by five decimal numbers |
| AdbController.SwipeCommandLiterals | subway_ai/inference/adb_controller.py:38-50 | the four gestures' argument vectors, spelled out |
| AdbController.SwipeCommandArguments | subway_ai/inference/adb_controller.py:36-50 | a swipe command's numeric arguments read back as the swipe |
| AdbController.SwipeCommandInjective | subway_ai/inference/adb_controller.py:36-50 | distinct gestures give distinct commands |
| AdbController.ActionSwipe | subway_ai/inference/adb_controller.py:63-77 | accepted iff the label is one of the five; other labels give ValueError; "running" gives no swipe; left moves x down, right moves x up, jump moves y up, down moves y down |
| AdbController.ActionCommands | subway_ai/inference/adb_controller.py:63-77 | at most one command, and exactly one for left/right/jump/down, which is a swipe |
| AdbController.ScreenshotCommands | subway_ai/inference/adb_controller.py:52-61 | screencap, then pull of the same device file to the output path, then rm of it |
| AdbController.SdkAdb | subway_ai/inference/adb_controller.py:17-19 | a candidate path always names `adb.exe` |
| AdbController.SdkAdbPath | subway_ai/inference/adb_controller.py:17 | the candidate under a root is the root's lead followed by `Android/Sdk/platform-tools/adb.exe`: plain relative when the root normalises to ".", otherwise the normalised root, '/', then the rest |
| AdbController.HomeCandidate | subway_ai/inference/adb_controller.py:19 | the second candidate is the home directory's lead followed by `AppData/Local/Android/Sdk/platform-tools/adb.exe` |
| AdbController.PossibleLocations | subway_ai/inference/adb_controller.py:15-20 | two candidates, in search order, both named `adb.exe` |
| AdbController.UnsetLocalAppData | subway_ai/inference/adb_controller.py:17 | with LOCALAPPDATA unset, the first candidate is relative to the working directory |
| AdbController.FindAdbPath | subway_ai/inference/adb_controller.py:22-27 | the first existing candidate in list order; FileNotFoundError iff none exists |
| AdbController.NewADBController | subway_ai/inference/adb_controller.py:7-10 | FileNotFoundError iff no candidate exists; otherwise not connected iff `adb devices` fails; on success the controller uses the first existing candidate and has issued only `devices` |
| AdbController.ADBController.CheckAdbConnection | subway_ai/inference/adb_controller.py:29-34 | issues `adb devices`; a non-zero status becomes the not-connected error |
| AdbController.ADBController.SwipeLeft | subway_ai/inference/adb_controller.py:36-38 | appends the left swipe command |
| AdbController.ADBController.SwipeRight | subway_ai/inference/adb_controller.py:40-42 | appends the right swipe command |
| AdbController.ADBController.SwipeUp | subway_ai/inference/adb_controller.py:44-46 | appends the up swipe command |
| AdbController.ADBController.SwipeDown | subway_ai/inference/adb_controller.py:48-50 | appends the down swipe command |
| AdbController.ADBController.TakeScreenshot | subway_ai/inference/adb_controller.py:52-61 | appends the three screenshot commands in order |
| AdbController.ADBController.PerformAction | subway_ai/inference/adb_controller.py:63-77 | appends exactly the action's commands; passes iff the label is one of the five, else ValueError with nothing issued |
| AdbController.ADBController.StartGame | subway_ai/inference/adb_controller.py:79-82 | appends `am start -n` of the game activity |
| AdbController.ADBController.StopGame | subway_ai/inference/adb_controller.py:84-86 | appends `am force-stop` of the game package |
| RunInference.ArgMax | subway_ai/inference/run_inference.py:38 | the index of the first maximum: nothing larger anywhere, everything before it strictly smaller |
| RunInference.FirstMaxUnique | subway_ai/inference/run_inference.py:38 | the first maximum is unique |
| RunInference.PredictAction | subway_ai/inference/run_inference.py:35-39 | the `action_map` label at the first maximum; ValueError for an empty row; KeyError for an index the map lacks; every label is dispatchable |
| RunInference.FiveWayPredictionDispatches | subway_ai/inference/run_inference.py:26-39 | a five-way row always yields a label `perform_action` accepts |
| RunInference.PredictJumpExample | subway_ai/inference/run_inference.py:37-39 | [0.1, 0.05, 0.7, 0.1, 0.05] gives "jump" |
| RunInference.PredictTieGoesLeft | subway_ai/inference/run_inference.py:38 | ties go to the lowest index: an even row gives "left" |
| RunInference.Iterations | subway_ai/inference/run_inference.py:53-62 | no captures issue nothing; a loop that raises ends with a capture, argmax (ValueError) or lookup (KeyError) error, never a dispatch error |
| RunInference.Swipes | subway_ai/inference/run_inference.py:62 | at most one swipe per capture |
| RunInference.FiveWayRunsToInterrupt | subway_ai/inference/run_inference.py:53-65 | with readable five-way captures the loop never raises and issues 3 commands per iteration plus one per non-running label |
| RunInference.IterationStartsWithScreenshot | subway_ai/inference/run_inference.py:53-55 | the loop opens with the three screenshot commands |
| RunInference.IterationsStop | subway_ai/inference/run_inference.py:55-59 | an unreadable capture or a failed prediction ends the loop right after its screenshot |
| RunInference.IterationsStep | subway_ai/inference/run_inference.py:55-62 | a dispatched capture adds its screenshot and action commands and leaves the rest to later captures |
| RunInference.SubwaySurferAI.Run | subway_ai/inference/run_inference.py:41-71 | start_game once before the loop, the loop's commands, stop_game on every way out; the outcome is the loop's |
| RunInference.SubwaySurferAI.Loop | subway_ai/inference/run_inference.py:53-65 | the `while True` loop computes `Iterations` |
| LabelFrames.FrameName | subway_ai/utils/label_frames.py:84 | a label key is a single path component |
| LabelFrames.FindResumeIndex | subway_ai/utils/label_frames.py:37-41 | the first frame without a label, or 0 when every frame has one |
| LabelFrames.ResumeIndexCases | subway_ai/utils/label_frames.py:20-43 | with no labels loaded, labelling starts at frame 0; only labelled frames are skipped |
| LabelFrames.LabelLoop | subway_ai/utils/label_frames.py:62-91 | the loop ends by quit, by passing the last frame, or waiting for a key; it never moves back and only appends saves |
| LabelFrames.UnrecognisedKeyIgnored | subway_ai/utils/label_frames.py:80-85 | an unknown key changes neither the labels nor the frame index |
| LabelFrames.UnreadableFrameSkipped | subway_ai/utils/label_frames.py:66-69 | an unreadable frame advances the index by one without a label or a key |
| LabelFrames.Store | subway_ai/utils/label_frames.py:84-89 | storing a label puts it under the frame's name, advances by exactly one, and writes a checkpoint exactly when the label count is a multiple of ten |
| LabelFrames.LabelKeyStores | subway_ai/utils/label_frames.py:82-85 | a label key on a readable frame continues the loop from `Store` of that key's label |
| LabelFrames.LabelKeysStoreLabels | subway_ai/utils/label_frames.py:12-19 | every key in the table other than quit maps to one of the five stored labels |
| LabelFrames.QuitNeverStored | subway_ai/utils/label_frames.py:80-85 | every label held at the end was loaded or is one of the five: "quit" is never stored, and no loaded name is lost |
| LabelFrames.CurrentWithinFrames | subway_ai/utils/label_frames.py:62 | the index never passes the frame count, and equals it when the loop finishes |
| LabelFrames.SavesAreCheckpointsThenFinal | subway_ai/utils/label_frames.py:88-91 | every file written mid-loop holds a multiple of ten labels, and the last write is the final labels unless the loop still waits for a key |
| LabelFrames.FrameLabeler.constructor | subway_ai/utils/label_frames.py:8-43 | loads the stored labels (or none) and resumes at the first unlabelled frame |
| LabelFrames.FrameLabeler.LabelFrames | subway_ai/utils/label_frames.py:45-91 | no frames: returns at once with nothing changed; otherwise the loop computes `LabelLoop` on the labeller's fields |
| LabelFrames.FrameLabeler.SaveLabels | subway_ai/utils/label_frames.py:95-97 | writes the labels as they are, changing nothing else |
| ExtractFrames.FrameFileName | subway_ai/utils/extract_frames.py:35 | `frame_`, at least six digits, `.jpg` |
| ExtractFrames.FrameFileNameHasNoSlash | subway_ai/utils/extract_frames.py:35 | a frame name is one path component |
| ExtractFrames.Kept | subway_ai/utils/extract_frames.py:28-39 | no more kept indices than frames read |
| ExtractFrames.Extracted | subway_ai/utils/extract_frames.py:19-39 | an unopened video writes nothing; ZeroDivisionError iff the interval is 0 and a frame is read |
| ExtractFrames.Extract | subway_ai/utils/extract_frames.py:19-42 | the counter loop computes `Extracted` |
| ExtractFrames.KeptIff | subway_ai/utils/extract_frames.py:33 | index i is kept iff i is below the count and `i % interval == 0` |
| ExtractFrames.KeptSpacing | subway_ai/utils/extract_frames.py:25-39 | the n-th kept index is n·\|interval\|, and the count kept is ceil(frames / \|interval\|) |
| ExtractFrames.ModAbs | subway_ai/utils/extract_frames.py:33 | Python's `%` by a negative interval is zero exactly when the interval's size divides |
| ExtractFrames.WrittenIffMultiple | subway_ai/utils/extract_frames.py:33 | a frame is written iff its read index is a multiple of the interval |
| ExtractFrames.ExtractedCount | subway_ai/utils/extract_frames.py:25-39 | `frame_number` ends at ceil(frame_count / \|interval\|), and image n holds read index n·\|interval\| |
| ExtractFrames.FrameNamesDistinct | subway_ai/utils/extract_frames.py:35-37 | distinct frame numbers give distinct names |
| ExtractFrames.WrittenPathsDistinct | subway_ai/utils/extract_frames.py:35-37 | no image of a run overwrites another |
| ExtractFrames.FirstFrameNames | subway_ai/utils/extract_frames.py:35 | the first names are `frame_000000.jpg`, `frame_000001.jpg` |
| ExtractFrames.VideoOutputDirOfMp4 | subway_ai/utils/extract_frames.py:51 | `<s>.mp4` is extracted into `<output_dir>/<s>` |
| ExtractFrames.ProcessAllVideos | subway_ai/utils/extract_frames.py:44-52 | every globbed video is extracted with interval 5 into its own stem directory |
| ExtractFrames.ProcessVideo | subway_ai/utils/extract_frames.py:51-52 | one video's pass: the directory `output_dir / stem` and what extracting into it gives |
| Paths.Parts | subway_ai/utils/preprocess.py:48 | the parts pathlib keeps are non-empty, not ".", and separator-free |
| Paths.JoinPlain | subway_ai/utils/preprocess.py:48 | `Path(base) / name` for one component is the base's lead, then name; the lead is the normalised base and one '/', or nothing for an empty or "." base |
| Paths.LeadOfNormal | subway_ai/utils/preprocess.py:48 | the lead is empty iff the base normalises to "."; with parts it is the normalised base plus '/', without them the bare anchor |
| Paths.LeadOfJoin | subway_ai/utils/extract_frames.py:51 | joining a component extends the lead by that component and '/' |
| Paths.NormalIdempotent | subway_ai/utils/preprocess.py:48 | normalising a path twice is normalising it once |
| Paths.JoinNormalBase | subway_ai/utils/preprocess.py:48 | a base and its normalised text give the same joined path |
| Paths.PartsOfRender | subway_ai/utils/preprocess.py:48 | printing an anchor and parts and reading the text again gives them back |
| Paths.JoinTrailingSeparator | subway_ai/utils/preprocess.py:48 | a trailing '/' on the base vanishes: `a/` joined with b is `a/b` |
| Paths.JoinDotPrefix | subway_ai/utils/preprocess.py:48 | a leading `./` on the base vanishes: `./a` joined with b is `a/b` |
| Paths.JoinRepeatedSeparator | subway_ai/utils/preprocess.py:48 | repeated separators count as one: `a//m` joined with b is `a/m/b` |
| Paths.JoinAllPlain | subway_ai/inference/adb_controller.py:17-19 | a chain of joins appends its components, separated by '/', to the base's lead, and extends the lead by all of them |
| Paths.NameOfJoinAll | subway_ai/inference/adb_controller.py:17-19 | the name of a chain of joins is its last component |
| Paths.NameOfJoin | subway_ai/utils/preprocess.py:48 | the name of `base / name` is name |
| Paths.OsJoin | subway_ai/utils/extract_frames.py:35 | the result starts with the base and ends with the name |
| Paths.OsJoinInjective | subway_ai/utils/extract_frames.py:35 | different names joined onto one base give different paths |
| Paths.NameOfOsJoin | subway_ai/utils/extract_frames.py:35 | the joined name is the name of the joined path |
| Paths.Name | subway_ai/utils/label_frames.py:84 | `.name` holds no separator |
| Paths.StemOfMp4 | subway_ai/utils/extract_frames.py:51 | the stem of `<s>.mp4` is s |
| Text.LastPiece | subway_ai/gather_data.py:39 | `split(token)[-1]` is a suffix of the line with no token in it |
| Text.Strip | subway_ai/gather_data.py:39 | `strip()` leaves no whitespace at either end |
| Text.ParseHex | subway_ai/gather_data.py:39 | `int(·, 16)` reads back an eight-digit hex rendering |
| Text.LastWord | subway_ai/gather_data.py:63 | `split()[-1]` is absent iff the text is blank, and otherwise a non-empty word with no whitespace |
| Text.SplitChar | subway_ai/gather_data.py:63 | `split('x')` has at least one part and no part contains 'x' |
| Text.ParsePadded | subway_ai/utils/extract_frames.py:35 | `{n:06d}` reads back as n |
| Preprocess.BuildLists | subway_ai/utils/preprocess.py:41-50 | KeyError iff some label is outside `label_map`; otherwise both lists have one entry per labels-file entry in file order, the i-th being `frames_dir / name_i` and `label_map[label_i]`, a value in 0..4 |
| Train.TrainSize | subway_ai/model/train.py:64 | floor(4n/5): 0 ≤ t ≤ n and 5t ≤ 4n < 5t + 5 |
| Train.ValSize | subway_ai/model/train.py:65 | the training and validation sizes sum to n |
| Train.Steps | subway_ai/model/train.py:88-89 | at least 1; exactly size // 32 when size ≥ 32; 1 below that |
| Train.TrainModel | subway_ai/model/train.py:58-89 | a missing labels file raises FileNotFoundError before any dataset work; a loading error propagates; otherwise the split sums to the length and both step counts are ≥ 1 |
| Train.SplitShares | subway_ai/model/train.py:64-65 | the training share grows with n and is never smaller than validation once n ≥ 5 |
| Train.StepsCollapseToOne | subway_ai/model/train.py:88-89 | with fewer than 40 batches, both step counts are 1 |
| Train.Batches | subway_ai/utils/preprocess.py:78 | the batch count is ceil(frames / 32) |
| Train.FewFramesOneStep | subway_ai/model/train.py:88 | up to 1248 labelled frames give one training step per epoch, because the batch count is divided by 32 again |
| LabelSets.LabelMapInvertsActionMap | subway_ai/utils/preprocess.py:45 | `label_map` and `action_map` are inverse in both directions |
| LabelSets.StoredLabelsAreEncodable | subway_ai/utils/label_frames.py:12-19 | the labeller's stored labels, the encoder's labels, the dispatcher's labels and the agent's labels are the same five |
| LabelSets.GatheredUpIsRejected | subway_ai/gather_data.py:13 | the recorder has an "up" directory and no "jump" one; "up" raises ValueError in dispatch and is not encodable |
| LabelSets.LabelKeyIgnoresVideo | subway_ai/utils/label_frames.py:84 | the label key of a video's n-th frame is `frame_{n:06d}.jpg` whatever the video |
| LabelSets.EncodedPathMissesVideoDir | subway_ai/utils/preprocess.py:48 | whenever the video's stem is a proper directory name, the encoder's path for a frame differs from the path extraction wrote it to (for a stem "" or "." they coincide) |

## Left out

- Subprocesses, OpenCV and TensorFlow are foreign calls. They appear only as logged argument vectors and as inputs. This covers building, training, saving and loading the model, `preprocess_frame`, and the dataset map, shuffle and prefetch.
- Sleeps, wall-clock cadence and `print` output are left out. Clock readings are integer milliseconds supplied with each event line and each round.
- `KeyboardInterrupt` arrives after the last supplied round or capture, or while `readline` blocks. Interrupting in the middle of a round is not modelled.
- The `finally` cleanup is not modelled: `terminate`, `unlink` and `rmdir`. The model does not capture that `rmdir` fails on a non-empty directory. It also does not capture that `run_inference.py:72-75` uses `screenshot_path` and `temp_dir` while they are still unbound when the interrupt comes before line 51. `Run` models only the `stop_game` call that comes first.
- JSON load and dump, `mkdir`, the frame glob and its sorting, `namedWindow`, `imshow`, `destroyAllWindows` and `mouse_callback` are left out. The labeller receives its sorted frame paths and the loaded labels. The encoder receives the labels file's entries in file order, as a sequence.
- The `strftime` timestamp of a saved frame is an input per round.
- GatherData.Zone: compares exact rationals, where Python compares an int with the float `w / 3`. The two agree for any realistic screen size, but rounding for widths near 2^53 is not modelled.
- Train.TrainSize: models `int(0.8 * n)` as floor(4n/5). The double nearest 0.8 lies above 0.8, so the rounded product never falls below an integral 4n/5. While 0.8·n < 2^50 (n up to about 1.4·10^15), the representation and rounding errors stay below the 0.2 gap between a non-integral 4n/5 and the next integer, so the two agree. Above that they can differ: n = 1689134466536921 gives `int(0.8 * n)` = 1351307573229537, one more than floor(4n/5). That floating-point argument is not proved in Dafny.
- RunInference.Iterations: a screenshot that cannot be read ends the loop with a single `ForeignCallError`. OpenCV's actual exception type is not modelled.
- AdbController.ADBController.PerformAction: its ValueError branch cannot be reached from `run`. The agent loop only passes labels from `action_map`, and `FiveWayPredictionDispatches` shows that these are all accepted.
- A subprocess that cannot start at all (an OSError when adb is missing) is not modelled. Non-zero exit statuses are modelled where the code checks them: `adb devices` under `check=True` and `wm size` under `check_output`. The other commands' statuses are not checked by the code.
- Paths follow `PurePosixPath`: '/' separators only, with "." and empty components dropped and ".." kept. Windows separators and drive letters in the adb candidates are not modelled.
- Python's `int()` is modelled for bases 10 and 16, with whitespace, sign, `0x` prefix and underscores. Non-ASCII digits and the 4300-digit limit are left out.
- NaN entries in the classifier's row are left out. The row is real-valued, and `np.argmax`'s NaN rule is not modelled.
