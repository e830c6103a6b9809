# Face recognition web service: verified model of the recognition core

This project models the control logic of a small web service. A user uploads a video and one or more reference face images. A background task then scans the video and writes a text report of the frames in which a reference face appears. The model has four modules:

- `Common`: an optional value, Python's `str(n)` for natural numbers, and Python's notion of a blank string.
- `MatchSpec`: functions that state what a scan produces. They define:
  - the best target for one detected face (strict threshold of 60, the first of the maxima wins);
  - the lines of one analysed frame;
  - the lines of a whole scan, where the running frame counter decides which frames are analysed (every 5th);
  - the full report: three header lines, the events, a separator and a footer with the counter.
  Lemmas prove the properties these functions promise.
- `FaceRecognition`: the class `FaceRecognitionLogic`.
  - Its fields are the two dictionaries of reference embeddings and display names, their shared insertion order and the frame counter.
  - Its methods update these fields in place.
  - Its loops are proved to produce exactly what `MatchSpec` describes.
- `TaskPipeline`: the orchestration in main.py.
  - `Host` is the task store (key to status and result path), the `task_images` rows and the file system. A ghost log records status writes, the start of a scan, report writes and file removals.
  - `RecognizeFace` saves the uploads and chooses a name for each image.
  - `ProcessVideoTask` ingests the references, decides the task's terminal status, writes the report and removes the temporary files in its `finally` block. It stops at the first removal that raises.
  - `CheckStatus` and `DownloadResult` are the status and download guards.

Some inputs are parameters of the model:

- The confidence of a detected face against a target (`100 - cosine_distance * 100` over network embeddings) is a function parameter `sim`.
- Decoding and face detection appear as data:
  - a reference image is `Unreadable` or `Decoded(faces)`;
  - a video is `Unopened` or `Opened(frames)`;
  - a frame lists the faces processed before any exception, plus whether an exception was then raised.
- An exception escaping the body of `process_video_task` is a `Fault` parameter.
- A file whose removal raises is a member of `Host.undeletable`.

The code differs from the service's intended design in these places. The model follows the code in each:

- The description accepts a face at confidence 60 or more (cosine distance ≤ 0.4). The code requires strictly more than 60 (logic/face_recognition_logic.py:100).
- The description says a per-face failure skips only that face. In the code the `try` encloses the whole loop over a frame's faces (logic/face_recognition_logic.py:80-113). An exception ends that frame's analysis. Lines already produced for earlier faces of the frame stay, and one error line is appended.
- The design gives an absent or blank name the default "Лицо <key>". `add_target_image` tests only whether the name is truthy (logic/face_recognition_logic.py:41), so a name made only of white space is kept (`TargetName`). In the pipeline this cannot arise, because the upload handler already replaces blank names (`StoredNameIsChosenName`).
- The design deletes every temporary file whatever happens. The `finally` block removes the files under one `try` and stops at the first removal that raises (main.py:140-152), so later files stay (`CleanupStopsAtFirstFailure`).

Running `if best_match_id:` on an empty key also suppresses the line. The model keeps this.

## Model

| member | source | states |
|---|---|---|
| FaceRecognition.FaceRecognitionLogic.constructor | logic/face_recognition_logic.py:9-13 | a new engine has no targets and a frame counter of 0 |
| FaceRecognition.AddOutcomeOf | logic/face_recognition_logic.py:27-33 | an image is accepted iff it decodes and has at least one face; an unreadable image is refused as unreadable, a faceless one as having no face |
| FaceRecognition.TargetName | logic/face_recognition_logic.py:41 | the stored display name is the given name when that is non-empty, otherwise "Лицо " followed by the key; it is never empty |
| FaceRecognition.TargetListAppend | logic/face_recognition_logic.py:40-41 | inserting a new key into the dictionaries appends its target after the existing ones, which are unchanged |
| FaceRecognition.FaceRecognitionLogic.AddTargetImage | logic/face_recognition_logic.py:18-43 | a refused image changes neither dictionary; an accepted one writes exactly key `imageId` in both (first face's embedding, display name), keeps the key's place if present and appends it otherwise; both dictionaries keep the same key set |
| FaceRecognition.FaceRecognitionLogic.ClearTargets | logic/face_recognition_logic.py:45-48 | both dictionaries become empty |
| FaceRecognition.FaceRecognitionLogic.ScanTargets | logic/face_recognition_logic.py:92-102 | the loop over the targets in insertion order ends with the index `BestMatch` selects and that index's confidence (0 when none) |
| FaceRecognition.FaceRecognitionLogic.BestTarget | logic/face_recognition_logic.py:92-102 | the scan over the targets in insertion order returns no target iff no confidence exceeds the threshold, else the earliest maximal one with its confidence |
| FaceRecognition.FaceRecognitionLogic.AnalyseFrame | logic/face_recognition_logic.py:80-113 | the lines of an analysed frame are those `FrameLines` describes: one match line per face with a best target, in detector order, then an error line if processing raised |
| FaceRecognition.FaceRecognitionLogic.ScanFrames | logic/face_recognition_logic.py:71-113 | every decoded frame raises the counter by one, and the lines gathered are `ScanLines` from the old counter |
| FaceRecognition.FaceRecognitionLogic.ReportVideo | logic/face_recognition_logic.py:63-121 | with targets present, the report is the header with the target count, the scan's lines, a separator and the counter after the scan |
| FaceRecognition.FaceRecognitionLogic.RecognizeInVideo | logic/face_recognition_logic.py:50-121 | without targets the fixed error and an unchanged counter; otherwise the counter grows by the number of decoded frames and the report is `RecognitionReport` from the old counter |
| MatchSpec.BestIn | logic/face_recognition_logic.py:92-102 | after the first n targets the selected index is one of them and its confidence is above the threshold |
| MatchSpec.BestMatch | logic/face_recognition_logic.py:92-102 | a selected index is in range and its confidence is above the threshold |
| MatchSpec.BestInCharacterized | logic/face_recognition_logic.py:92-103 | after the first n targets nothing is selected iff none of them is above 60; otherwise k is selected iff it is above 60, none of the n exceeds it and every earlier one is strictly smaller |
| MatchSpec.BestMatchCharacterized | logic/face_recognition_logic.py:92-103 | nothing is selected iff every confidence is at most 60; otherwise index k is selected iff it is above 60, no confidence exceeds it and every earlier one is strictly smaller |
| MatchSpec.BestTargetCharacterized | logic/face_recognition_logic.py:92-103 | over targets: no target is selected iff every target's confidence is at most 60, and a selected one is the first of the maxima |
| MatchSpec.MatchLinesSpec | logic/face_recognition_logic.py:92-109 | a face yields the line of its best target (when its key is non-empty) and no line when no confidence exceeds 60 |
| MatchSpec.MatchLineExistsIff | logic/face_recognition_logic.py:95-109 | with non-empty keys a face yields a line iff some confidence exceeds 60, and the reported confidence is above 60 and at least every target's |
| MatchSpec.FrameLinesShape | logic/face_recognition_logic.py:80-113 | every line of a frame carries that frame's counter; an error line appears iff processing raised, and then last |
| MatchSpec.FaceLinesAreMatches | logic/face_recognition_logic.py:85-109 | the faces of a frame contribute only match lines stamped with the frame's counter |
| MatchSpec.ScanLinesWithin | logic/face_recognition_logic.py:71-113 | every line of a scan is an event whose counter lies after the old counter and at most the new one |
| MatchSpec.ScanLinesSampled | logic/face_recognition_logic.py:71-78 | every event of a scan comes from a frame counted within the scan whose counter is divisible by 5 |
| MatchSpec.ScanLinesInPlaybackOrder | logic/face_recognition_logic.py:71-113 | the events of a scan are in frame order: their counters never decrease |
| MatchSpec.UnsampledFramesIgnored | logic/face_recognition_logic.py:76-78 | frames whose counter is not divisible by 5 have no influence on the report |
| MatchSpec.ScanLinesNone | logic/face_recognition_logic.py:76-78 | a stretch of frames that reaches no multiple of 5 contributes no lines |
| MatchSpec.FirstFiveFrames | logic/face_recognition_logic.py:71-78 | of the frames counted 1 to 5 only the fifth is analysed |
| MatchSpec.NextFiveFrames | logic/face_recognition_logic.py:71-78 | of the frames counted 6 to 10 only the tenth is analysed |
| MatchSpec.TwelveFrames | logic/face_recognition_logic.py:71-78 | twelve frames from counter 0 yield exactly the lines of the frames counted 5 and 10, and the footer reports 12 |
| MatchSpec.ReportShape | logic/face_recognition_logic.py:64-119 | three header lines with the target count second, then only events, then a separator and the counter after the scan; no frames gives header and footer only |
| Common.NatToString | main.py:79 | `str(n)` is a non-empty string of decimal digits, a single digit exactly for n < 10 |
| Common.NatToStringRoundTrip | main.py:79 | the digits of `str(n)` read back as n, so the rendering carries the value and not only its shape |
| Common.NatToStringInjective | main.py:107 | distinct indexes render as distinct strings |
| TaskPipeline.NamesDict | main.py:60-66 | `names_dict` is the parsed object; an absent or empty field, or one that is not valid JSON, leaves it empty |
| TaskPipeline.ChosenNameSpec | main.py:79-81 | image i's name is the supplied name for key `str(i)` when present and not blank, else "Лицо i+1"; it is never blank |
| TaskPipeline.UploadPathInjective | main.py:74 | within one task, two images with distinct indexes never share an upload path |
| TaskPipeline.SavedUploadAt | main.py:73-76 | every uploaded image is saved under its own path and no later upload of the task overwrites it |
| TaskPipeline.VideoOverwrittenByFirstImage | main.py:54-76 | a video named `0_` plus the first image's file name shares that image's path and is overwritten by it; under the model's reading of `cv2.VideoCapture` (`VideoAt`) the scan then opens no video |
| TaskPipeline.UploadInfosAt | main.py:72-85 | entry i of the list handed to the run holds upload i's path and chosen name |
| TaskPipeline.SaveImages | main.py:72-85 | the image loop saves every upload under its own path, records each with its chosen name in order, and returns the list `UploadInfos` describes |
| TaskPipeline.RecognizeFace | main.py:53-87 | the video and each image are saved under paths built from the task id; the task is created in progress; `image_paths` has one entry per upload, in order, with its path and chosen name, and the same records go to `task_images` |
| TaskPipeline.Host.SaveFile | main.py:55-56 | writing an upload replaces whatever the path held with the new content and leaves every other file as it was |
| TaskPipeline.ImageAt | logic/face_recognition_logic.py:27-29 | `cv2.imread` of a path yields the image saved there, and an unreadable result for a missing path or a file that is not an image |
| TaskPipeline.VideoAt | logic/face_recognition_logic.py:63 | `cv2.VideoCapture` of a path yields the video saved there, and an unopened capture for a missing path or a file that is not a video |
| TaskPipeline.IngestName | main.py:109 | the run passes the recorded name when it is non-empty and "Лицо i+1" otherwise; never an empty name |
| TaskPipeline.ImageIdInjective | main.py:107 | distinct images are ingested under distinct keys `image_{i}` |
| TaskPipeline.StoredNameIsChosenName | main.py:109 | a name chosen at upload reaches the reference set unchanged |
| TaskPipeline.IngestedIdsBelow | main.py:106-112 | images before index m never leave a target under key `image_{m}`, so ingesting image m appends |
| TaskPipeline.OfferImage | main.py:106-115 | offering image i leaves the recognizer valid, holding the targets of images 0..i |
| TaskPipeline.IngestImages | main.py:103-115 | a fresh recognizer offered every image in order, with refused images skipped, holds exactly `IngestedTargets` with a counter of 0 |
| TaskPipeline.IngestedTargetsEmptyIff | main.py:106-118 | the reference set ends up empty iff no image is accepted |
| TaskPipeline.RunRow | main.py:117-137 | with store writes that succeed, a run never leaves the task in progress; it is done iff a reference was ingested and nothing raised, and then its result path is `results/<task>.txt`; an error row has no result path |
| TaskPipeline.RunTask | main.py:98-138 | ingest; with no reference set status error without scanning; else scan, write the report and set status done; an exception sets error instead; the status is written once, only for an existing row |
| TaskPipeline.ScanAndReport | main.py:122-138 | once a reference is ingested: the scan starts; an exception sets status error, otherwise the report of the scan is written to `results/<task>.txt` and then status done is set, in that order in the log; a completed scan advances the recognizer's counter by the number of decoded frames |
| TaskPipeline.ReportWrittenBeforeDone | main.py:128-133 | a run writes its report iff it ends done, and the report write comes before the status write |
| TaskPipeline.ProcessVideoTask | main.py:97-152 | the run's status, report file and effect log as in `RunTask`, followed in every case by the cleanup `CleanupRun` describes |
| TaskPipeline.Host.UpdateTaskByUserKey | database/database.py:119-155 | an existing row gets the new status and result path (none when not given) and a log entry; a missing key changes nothing and reports false |
| TaskPipeline.Host.AddTask | database/database.py:52-71 | adds a row in progress without a result path |
| TaskPipeline.Host.AddTaskImage | database/database.py:73-91 | appends a `task_images` row |
| TaskPipeline.Host.RemoveFile | main.py:144-145 | an existing file is removed and logged unless its removal raises, which changes nothing |
| TaskPipeline.Host.RemovePaths | main.py:142-145 | removing the listed paths in order, skipping missing ones, until a removal raises, does what `CleanupRun` describes |
| TaskPipeline.Host.RemoveTempFiles | main.py:139-152 | the image paths then the video are cleaned up as `CleanupRun` describes, and the log records each removal in order |
| TaskPipeline.CleanupRemovesOnly | main.py:140-152 | the cleanup removes only listed, existing, removable files, and when it does not stop it removes every listed file that exists |
| TaskPipeline.CleanupAbortsIff | main.py:140-152 | the cleanup stops iff some listed path exists and cannot be removed |
| TaskPipeline.CleanupStopsAtFirstFailure | main.py:140-152 | at the first such path the cleanup stops: it has removed every existing path before it and nothing after it |
| TaskPipeline.CleanupAppend | main.py:142-150 | cleaning the images and then the video is one cleanup over both lists; the video is visited only if the images' cleanup did not stop |
| TaskPipeline.CheckStatus | main.py:162-167 | an unknown key gets the not-found reply, a known one its status |
| TaskPipeline.DownloadResult | main.py:172-176 | a file is served iff the task exists, is done and has a non-empty result path, and it is that path |
| TaskPipeline.DownloadAfterRun | main.py:128-176 | after a run the download serves `results/<task>.txt` iff the run ingested a reference and nothing raised; an in-progress task serves nothing |

## Left out

- The confidence step (`cosine_distance` and `100 - distance * 100`) is floating-point numpy arithmetic. It is the parameter `sim`, and confidences are exact reals.
- Model and detector construction, `FaceDetector.detect_faces`, `model.predict` and `cv2.resize` are foreign calls. Their results are the data of `RefImage` and `Frame`.
- OpenCV decoding is left out: a video is a finite sequence of frames, and one that cannot be opened has no frames.
- Frame timestamps (`CAP_PROP_POS_MSEC`, rounded to 0.01 s) come from the decoder. An event carries the frame counter of its frame instead.
- The `datetime.now()` texts in the title and event lines are left out because they depend on the clock.
- The reported confidence is an exact real; its rounding to two decimals is not modelled.
- The report is a sequence of structured lines. The text formatting of each line and the final `"\n".join` are not modelled.
- `print` and all logging are output only and are left out.
- The random `uuid4` task id is a parameter of `RecognizeFace`.
- FastAPI routing, the redirect, `BackgroundTasks` scheduling and the 200 ms sleep in `check_status` are left out. A run and status polls are never interleaved in the model.
- The `index` page handler and static/script.js (browser polling and DOM building) are user interface and are not part of this model.
- database/database.py is a map from task key to status and result path, plus a list of `task_images` rows. Left out of it:
  - SQLite itself;
  - row ids and `created_at`;
  - `update_task` and `get_task_images`, which the core does not call;
  - several rows sharing one `user_key`, which cannot happen for uuid keys.
- The `image_names` field is modelled as absent, malformed, or an object from strings to strings. Two other kinds of input are not modelled:
  - JSON that parses to something other than an object (a list, a number, `null`) makes `names_dict.get` raise as soon as there is an image.
  - A non-string value under a key `str(i)` that an image looks up. A falsy one (`null`, `0`, `false`, `[]`, `{}`) falls back to "Лицо i+1", exactly as when the key is absent, so the model covers it by leaving the key out. A truthy one makes `name.strip()` raise (main.py:80). Values under keys no image looks up have no effect.
- `os.makedirs` of `temp` and the streaming copy of uploads are left out. Saving an upload always succeeds and replaces the whole file.
- TaskPipeline.Host.UpdateTaskByUserKey: store writes are taken to succeed. In database/database.py:121-122 `sqlite3.connect` and `conn.cursor()` run before the `try` and can raise, and an error inside the `try` is swallowed (lines 151-153): the function returns False and the row keeps its old status. A run whose `done` or `error` write fails therefore leaves the task `in_progress`. The model does not capture either failure, so `RunRow`'s "never in progress" holds only for writes that succeed.
- TaskPipeline.VideoAt: a file that was not saved as a video reads as a capture that cannot be opened. OpenCV may open an image file as a one-frame video, which would give a footer of 1 rather than 0; that reading is not modelled.
- TaskPipeline.ProcessVideoTask: when writing the report raises, the model writes no report file. The source may leave an empty or partial `results/<task>.txt` behind, which the cleanup does not remove.
- FaceRecognition.FaceRecognitionLogic.AddTargetImage: the embedding stored is the detector's first face. Which face the detector lists first is not modelled.
