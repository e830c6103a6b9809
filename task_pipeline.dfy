/** The task orchestration of main.py: the upload handler that saves the inputs,
    chooses a display name per reference image and creates the task row; the
    background run that ingests the references, scans the video, records the
    terminal status and deletes the temporary files; and the status and download
    guards. The task store and the file system are an abstract Host whose effects
    on the run are also recorded in a ghost log. */
module TaskPipeline {
  import opened Common
  import opened MatchSpec
  import opened FaceRecognition

  type Path = string

  /** Directory of uploaded inputs (`temp_dir`) and of reports. */
  const TempDir: Path := "temp"
  const ResultsDir: Path := "results"

  /** The `status` column of a task row. */
  datatype Status = InProgress | Done | Error

  /** The part of a task row the core reads and writes: status and `result_path`. */
  datatype TaskRow = TaskRow(status: Status, resultPath: Option<Path>)

  /** What a file holds, as far as the pipeline can tell. */
  datatype FileContent = ImageFile(image: RefImage) | VideoFile(video: Video) | ReportFile(report: Report)

  /** A row of `task_images`. */
  datatype ImageRecord = ImageRecord(taskKey: string, path: Path, name: string)

  /** An entry of `image_paths`: `{"path": ..., "name": ...}`. */
  datatype ImageInfo = ImageInfo(path: Path, name: string)

  /** An uploaded reference image: its file name and what decoding it yields. */
  datatype ImageUpload = ImageUpload(filename: string, content: RefImage)

  /** The `image_names` form field: absent or empty, not valid JSON, or an object
      from keys to names. */
  datatype NamesField = NoNames | MalformedNames | ParsedNames(names: map<string, string>)

  /** Where, if anywhere, an exception escapes the body of `process_video_task`:
      before any image is ingested (creating the results directory or building the
      recognizer), while scanning the video, or while writing the report. Status
      writes are taken to succeed (see `Host.UpdateTaskByUserKey`). */
  datatype Fault = NoFault | FailsBeforeIngest | FailsDuringScan | FailsWritingReport

  /** Observable effects of a run, in the order they happen. */
  datatype Effect =
    | StatusWritten(key: string, row: TaskRow)
    | ScanStarted(video: Path)
    | ReportWritten(path: Path)
    | FileRemoved(path: Path)

  /** Reply of `check_status`. */
  datatype StatusReply = TaskNotFound | StatusIs(status: Status)

  /** Reply of `download_result`. */
  datatype DownloadReply = ResultUnavailable | ServeFile(path: Path)

  /** What the `finally` block did: the files it removed, in order, and whether a
      removal raised and stopped it. */
  datatype Cleanup = Cleanup(removed: seq<Path>, aborted: bool)

  // ---------------------------------------------------------------------------
  // Names, keys and paths

  /** `f"Лицо {n}"`. */
  function DefaultName(n: nat): string
  {
    FacePrefix + NatToString(n)
  }

  /** `names_dict`: the parsed object, or empty when the field is absent or malformed. */
  function NamesDict(field: NamesField): (names: map<string, string>)
    ensures field.ParsedNames? ==> names == field.names
    ensures !field.ParsedNames? ==> names == map[]
  {
    if field.ParsedNames? then field.names else map[]
  }

  /** The name the upload handler gives image i: the supplied name for key `str(i)`
      unless it is missing or blank, otherwise "Лицо i+1". It is never blank. */
  function ChosenName(names: map<string, string>, i: nat): string
  {
    var key := NatToString(i);
    if key in names && !IsBlank(names[key]) then names[key] else DefaultName(i + 1)
  }

  /** The chosen name is the supplied one when it is present and not blank, and
      "Лицо i+1" otherwise; either way it is never blank. */
  lemma ChosenNameSpec(names: map<string, string>, i: nat)
    ensures !IsBlank(ChosenName(names, i))
    ensures NatToString(i) in names && !IsBlank(names[NatToString(i)]) ==> ChosenName(names, i) == names[NatToString(i)]
    ensures NatToString(i) !in names || IsBlank(names[NatToString(i)]) ==> ChosenName(names, i) == DefaultName(i + 1)
  {
    assert !IsPythonSpace(DefaultName(i + 1)[0]);
  }

  /** `os.path.join("temp", f"{task_id}_{i}_{filename}")`. */
  function UploadPath(taskId: string, i: nat, filename: string): Path
  {
    TempDir + "/" + taskId + "_" + NatToString(i) + "_" + filename
  }

  /** `os.path.join("temp", f"{task_id}_{video.filename}")`. */
  function VideoPath(taskId: string, filename: string): Path
  {
    TempDir + "/" + taskId + "_" + filename
  }

  /** `os.path.join("results", f"{task_id}.txt")`. */
  function ResultPath(taskId: string): (p: Path)
    ensures p != ""
  {
    ResultsDir + "/" + taskId + ".txt"
  }

  /** The key under which the run ingests image i: `f"image_{i}"`. */
  function ImageIdFor(i: nat): ImageId
  {
    "image_" + NatToString(i)
  }

  /** Distinct images get distinct keys, so ingesting one never overwrites another. */
  lemma ImageIdInjective(a: nat, b: nat)
    requires ImageIdFor(a) == ImageIdFor(b)
    ensures a == b
  {
    assert ImageIdFor(a)[6..] == NatToString(a);
    assert ImageIdFor(b)[6..] == NatToString(b);
    NatToStringInjective(a, b);
  }

  /** The name the run passes for image i: its recorded name, or "Лицо i+1" if empty. */
  function IngestName(name: string, i: nat): (r: string)
    ensures r != ""
    ensures name != "" ==> r == name
    ensures name == "" ==> r == DefaultName(i + 1)
  {
    if name != "" then name else DefaultName(i + 1)
  }

  /** A name chosen at upload reaches the reference set unchanged. */
  lemma StoredNameIsChosenName(names: map<string, string>, i: nat)
    ensures TargetName(Some(IngestName(ChosenName(names, i), i)), ImageIdFor(i)) == ChosenName(names, i)
  {
    ChosenNameSpec(names, i);
  }

  // ---------------------------------------------------------------------------
  // Reading files

  /** What `cv2.imread` and the detector make of a path: unreadable unless it holds an image. */
  function ImageAt(files: map<Path, FileContent>, path: Path): (image: RefImage)
    ensures path in files && files[path].ImageFile? ==> image == files[path].image
    ensures path !in files || !files[path].ImageFile? ==> image == Unreadable
  {
    if path in files && files[path].ImageFile? then files[path].image else Unreadable
  }

  /** What `cv2.VideoCapture` makes of a path: not opened unless it holds a video. */
  function VideoAt(files: map<Path, FileContent>, path: Path): (video: Video)
    ensures path in files && files[path].VideoFile? ==> video == files[path].video
    ensures path !in files || !files[path].VideoFile? ==> video == Unopened
  {
    if path in files && files[path].VideoFile? then files[path].video else Unopened
  }

  /** `add_target_image` accepts the image. */
  predicate Ingestible(image: RefImage)
  {
    AddOutcomeOf(image) == Added
  }

  /** The reference set after the run offers every image of `infos`, in order,
      under key `image_{i}`: one target per accepted image. */
  function IngestedTargets(infos: seq<ImageInfo>, files: map<Path, FileContent>): seq<Target>
    decreases |infos|
  {
    if |infos| == 0 then []
    else
      var n := |infos| - 1;
      var image := ImageAt(files, infos[n].path);
      IngestedTargets(infos[..n], files)
        + if Ingestible(image)
          then [Target(ImageIdFor(n), image.faces[0], TargetName(Some(IngestName(infos[n].name, n)), ImageIdFor(n)))]
          else []
  }

  /** Offering one more image appends its target when it is accepted. */
  lemma IngestedTargetsStep(infos: seq<ImageInfo>, files: map<Path, FileContent>, i: nat)
    requires i < |infos|
    ensures var image := ImageAt(files, infos[i].path);
      IngestedTargets(infos[..i + 1], files)
        == IngestedTargets(infos[..i], files)
           + if Ingestible(image)
             then [Target(ImageIdFor(i), image.faces[0], TargetName(Some(IngestName(infos[i].name, i)), ImageIdFor(i)))]
             else []
  {
    assert infos[..i + 1][..i] == infos[..i];
  }

  /** Every target ingested from the first images carries the key of one of them. */
  lemma {:induction false} IngestedIdsBelow(infos: seq<ImageInfo>, files: map<Path, FileContent>, m: nat)
    requires m >= |infos|
    ensures forall t :: t in IngestedTargets(infos, files) ==> t.id != ImageIdFor(m)
    decreases |infos|
  {
    if |infos| > 0 {
      var n := |infos| - 1;
      IngestedIdsBelow(infos[..n], files, m);
      if ImageIdFor(n) == ImageIdFor(m) {
        ImageIdInjective(n, m);
      }
    }
  }

  /** The reference set ends up empty exactly when no image is accepted. */
  lemma {:induction false} IngestedTargetsEmptyIff(infos: seq<ImageInfo>, files: map<Path, FileContent>)
    ensures IngestedTargets(infos, files) == [] <==>
      forall i :: 0 <= i < |infos| ==> !Ingestible(ImageAt(files, infos[i].path))
    decreases |infos|
  {
    if |infos| > 0 {
      var n := |infos| - 1;
      IngestedTargetsEmptyIff(infos[..n], files);
      assert forall i :: 0 <= i < n ==> infos[..n][i] == infos[i];
    }
  }

  // ---------------------------------------------------------------------------
  // Outcome of a run

  /** The row a run leaves: `done` with `results/<task>.txt` when a reference was
      ingested and nothing raised, `error` without a result path otherwise. */
  function RunRow(taskId: string, hasTargets: bool, fault: Fault): (row: TaskRow)
    ensures row.status != InProgress
    ensures row.status == Done <==> hasTargets && fault == NoFault
    ensures row.status == Done ==> row.resultPath == Some(ResultPath(taskId))
    ensures row.status == Error ==> row.resultPath == None
  {
    if hasTargets && fault == NoFault then TaskRow(Done, Some(ResultPath(taskId))) else TaskRow(Error, None)
  }

  /** The run reaches the scan: a reference was ingested and nothing raised before. */
  predicate Scans(hasTargets: bool, fault: Fault)
  {
    hasTargets && fault != FailsBeforeIngest
  }

  /** The effects of a run before its cleanup: the scan if it starts, the report
      if the scan completes, then the one status write (when the row exists). */
  function RunEffects(tasks: map<string, TaskRow>, taskId: string, hasTargets: bool, fault: Fault, videoPath: Path): seq<Effect>
  {
    (if Scans(hasTargets, fault) then [ScanStarted(videoPath)] else [])
      + (if hasTargets && fault == NoFault then [ReportWritten(ResultPath(taskId))] else [])
      + (if taskId in tasks then [StatusWritten(taskId, RunRow(taskId, hasTargets, fault))] else [])
  }

  /** The report is written exactly in the runs that end `done`, and before the
      status write, so a `done` row never points at a file not yet written. */
  lemma ReportWrittenBeforeDone(tasks: map<string, TaskRow>, taskId: string, hasTargets: bool, fault: Fault, videoPath: Path)
    requires taskId in tasks
    ensures ReportWritten(ResultPath(taskId)) in RunEffects(tasks, taskId, hasTargets, fault, videoPath)
      <==> RunRow(taskId, hasTargets, fault).status == Done
    ensures RunRow(taskId, hasTargets, fault).status == Done ==>
      RunEffects(tasks, taskId, hasTargets, fault, videoPath)
        == [ScanStarted(videoPath), ReportWritten(ResultPath(taskId)), StatusWritten(taskId, TaskRow(Done, Some(ResultPath(taskId))))]
  {
  }

  /** The files after the body of a run: the report written when it completed. */
  function FilesAfterRun(files: map<Path, FileContent>, taskId: string, imagePaths: seq<ImageInfo>, videoPath: Path,
                         sim: (Embedding, Embedding) -> real, fault: Fault): map<Path, FileContent>
  {
    var targets := IngestedTargets(imagePaths, files);
    if |targets| > 0 && fault == NoFault
    then files[ResultPath(taskId) := ReportFile(RecognitionReport(targets, VideoAt(files, videoPath), 0, sim))]
    else files
  }

  /** The temporary files of a run in the order the `finally` block visits them. */
  function TempPaths(imagePaths: seq<ImageInfo>, videoPath: Path): seq<Path>
  {
    PathsOf(imagePaths) + [videoPath]
  }

  /** The `path` of every entry. */
  function PathsOf(infos: seq<ImageInfo>): (ps: seq<Path>)
    ensures |ps| == |infos| && forall i :: 0 <= i < |infos| ==> ps[i] == infos[i].path
  {
    seq(|infos|, i requires 0 <= i < |infos| => infos[i].path)
  }

  /** The `finally` block: visit the paths in order, skip those that do not exist,
      remove the others, and stop at the first removal that raises. */
  function CleanupRun(paths: seq<Path>, existing: set<Path>, undeletable: set<Path>): Cleanup
    decreases |paths|
  {
    if |paths| == 0 then Cleanup([], false)
    else if paths[0] !in existing then CleanupRun(paths[1..], existing, undeletable)
    else if paths[0] in undeletable then Cleanup([], true)
    else
      var rest := CleanupRun(paths[1..], existing - {paths[0]}, undeletable);
      Cleanup([paths[0]] + rest.removed, rest.aborted)
  }

  /** The cleanup removes only listed paths that exist and can be removed, and,
      unless it stops, every listed path that exists. */
  lemma {:induction false} CleanupRemovesOnly(paths: seq<Path>, existing: set<Path>, undeletable: set<Path>)
    ensures var c := CleanupRun(paths, existing, undeletable);
      && (forall p :: p in c.removed ==> p in paths && p in existing && p !in undeletable)
      && (!c.aborted ==> forall p :: p in paths && p in existing ==> p in c.removed)
    decreases |paths|
  {
    if |paths| > 0 {
      var p0 := paths[0];
      if p0 !in existing {
        CleanupRemovesOnly(paths[1..], existing, undeletable);
      } else if p0 !in undeletable {
        CleanupRemovesOnly(paths[1..], existing - {p0}, undeletable);
      }
      assert forall p :: p in paths ==> p == p0 || p in paths[1..];
    }
  }

  /** The cleanup stops exactly when some listed path exists and cannot be removed. */
  lemma {:induction false} CleanupAbortsIff(paths: seq<Path>, existing: set<Path>, undeletable: set<Path>)
    ensures CleanupRun(paths, existing, undeletable).aborted <==>
      exists k :: 0 <= k < |paths| && paths[k] in existing && paths[k] in undeletable
    decreases |paths|
  {
    if |paths| > 0 {
      var p0, tail := paths[0], paths[1..];
      assert forall j :: 1 <= j < |paths| ==> paths[j] == tail[j - 1];
      var rest := if p0 in existing then existing - {p0} else existing;
      if !(p0 in existing && p0 in undeletable) {
        CleanupAbortsIff(tail, rest, undeletable);
        if exists k :: 0 <= k < |paths| && paths[k] in existing && paths[k] in undeletable {
          var k :| 0 <= k < |paths| && paths[k] in existing && paths[k] in undeletable;
          assert tail[k - 1] in rest && tail[k - 1] in undeletable;
        }
      }
    }
  }

  /** Given the first path that exists and cannot be removed, the cleanup stops
      there: it removed every existing path before it and nothing else. */
  lemma {:induction false} CleanupStopsAtFirstFailure(paths: seq<Path>, existing: set<Path>, undeletable: set<Path>, k: nat)
    requires FirstFailure(paths, existing, undeletable, k)
    ensures CleanupRun(paths, existing, undeletable).aborted
    ensures forall p :: p in CleanupRun(paths, existing, undeletable).removed ==> p in paths[..k]
    ensures forall j :: 0 <= j < k && paths[j] in existing ==> paths[j] in CleanupRun(paths, existing, undeletable).removed
    decreases |paths|
  {
    var p0, tail := paths[0], paths[1..];
    var c := CleanupRun(paths, existing, undeletable);
    if k > 0 {
      assert !(p0 in existing && p0 in undeletable);
      var rest := if p0 in existing then existing - {p0} else existing;
      assert forall j :: 0 <= j < k - 1 ==> tail[j] == paths[j + 1];
      assert FirstFailure(tail, rest, undeletable, k - 1);
      CleanupStopsAtFirstFailure(tail, rest, undeletable, k - 1);
      assert paths[..k] == [p0] + tail[..k - 1];
      forall j | 0 <= j < k && paths[j] in existing ensures paths[j] in c.removed {
        if j > 0 && paths[j] != p0 {
          assert tail[j - 1] == paths[j] && tail[j - 1] in rest;
        }
      }
    }
  }

  /** Position k holds the first path that exists and cannot be removed. */
  ghost predicate FirstFailure(paths: seq<Path>, existing: set<Path>, undeletable: set<Path>, k: nat)
  {
    && k < |paths| && paths[k] in existing && paths[k] in undeletable
    && forall j :: 0 <= j < k ==> !(paths[j] in existing && paths[j] in undeletable)
  }

  /** The log entries of removing the given paths, in order. */
  function Removals(removed: seq<Path>): seq<Effect>
    decreases |removed|
  {
    if |removed| == 0 then [] else Removals(removed[..|removed| - 1]) + [FileRemoved(removed[|removed| - 1])]
  }

  // ---------------------------------------------------------------------------
  // Status and download guards

  /** `check_status`: a not-found reply for an unknown key, else the row's status. */
  function CheckStatus(tasks: map<string, TaskRow>, key: string): (r: StatusReply)
    ensures r == TaskNotFound <==> key !in tasks
    ensures key in tasks ==> r == StatusIs(tasks[key].status)
  {
    if key in tasks then StatusIs(tasks[key].status) else TaskNotFound
  }

  /** `download_result`: serves the result file only for an existing task whose
      status is `done` and whose result path is non-empty. */
  function DownloadResult(tasks: map<string, TaskRow>, key: string): (r: DownloadReply)
    ensures r.ServeFile? <==>
      key in tasks && tasks[key].status == Done && tasks[key].resultPath.Some? && tasks[key].resultPath.value != ""
    ensures r.ServeFile? ==> r.path == tasks[key].resultPath.value
  {
    if key !in tasks || tasks[key].status != Done || tasks[key].resultPath.None? || tasks[key].resultPath.value == ""
    then ResultUnavailable
    else ServeFile(tasks[key].resultPath.value)
  }

  /** After a run, the download serves `results/<task>.txt` exactly when the run
      ingested a reference and nothing raised; an in-progress task has nothing to serve. */
  lemma DownloadAfterRun(tasks: map<string, TaskRow>, taskId: string, hasTargets: bool, fault: Fault)
    ensures DownloadResult(tasks[taskId := RunRow(taskId, hasTargets, fault)], taskId)
      == if hasTargets && fault == NoFault then ServeFile(ResultPath(taskId)) else ResultUnavailable
    ensures DownloadResult(tasks[taskId := TaskRow(InProgress, None)], taskId) == ResultUnavailable
  {
  }

  // ---------------------------------------------------------------------------
  // The host: task store and file system

  /** The uploads saved by the handler, each under its own path. */
  function SavedUploads(files: map<Path, FileContent>, taskId: string, images: seq<ImageUpload>): map<Path, FileContent>
    decreases |images|
  {
    if |images| == 0 then files
    else
      var n := |images| - 1;
      SavedUploads(files, taskId, images[..n])[UploadPath(taskId, n, images[n].filename) := ImageFile(images[n].content)]
  }

  /** The paths and names the handler hands to the run, one per upload. */
  function UploadInfos(taskId: string, images: seq<ImageUpload>, names: map<string, string>): (infos: seq<ImageInfo>)
    ensures |infos| == |images|
    decreases |images|
  {
    if |images| == 0 then []
    else
      var n := |images| - 1;
      UploadInfos(taskId, images[..n], names) + [ImageInfo(UploadPath(taskId, n, images[n].filename), ChosenName(names, n))]
  }

  /** Handling one more upload appends its entry and saves its file. */
  lemma UploadStep(files: map<Path, FileContent>, taskId: string, images: seq<ImageUpload>, names: map<string, string>, i: nat)
    requires i < |images|
    ensures UploadInfos(taskId, images[..i + 1], names)
      == UploadInfos(taskId, images[..i], names) + [ImageInfo(UploadPath(taskId, i, images[i].filename), ChosenName(names, i))]
    ensures SavedUploads(files, taskId, images[..i + 1])
      == SavedUploads(files, taskId, images[..i])[UploadPath(taskId, i, images[i].filename) := ImageFile(images[i].content)]
  {
    assert images[..i + 1][..i] == images[..i];
  }

  /** Entry `i` holds upload `i`'s path and its chosen name. */
  lemma {:induction false} UploadInfosAt(taskId: string, images: seq<ImageUpload>, names: map<string, string>)
    ensures forall i :: 0 <= i < |images| ==>
      UploadInfos(taskId, images, names)[i] == ImageInfo(UploadPath(taskId, i, images[i].filename), ChosenName(names, i))
    decreases |images|
  {
    if |images| > 0 {
      var n := |images| - 1;
      UploadInfosAt(taskId, images[..n], names);
      forall i | 0 <= i < n
        ensures UploadInfos(taskId, images, names)[i] == UploadInfos(taskId, images[..n], names)[i]
      {
      }
    }
  }

  /** Position of the first `_` in a string (its length if there is none). */
  function FirstUnderscore(s: string): (k: nat)
    ensures k <= |s|
    decreases |s|
  {
    if |s| == 0 || s[0] == '_' then 0 else 1 + FirstUnderscore(s[1..])
  }

  /** In a run of digits followed by `_`, the first `_` is the one after the digits. */
  lemma {:induction false} UnderscoreAfterDigits(digits: string, rest: string)
    requires forall k :: 0 <= k < |digits| ==> '0' <= digits[k] <= '9'
    ensures FirstUnderscore(digits + "_" + rest) == |digits|
    decreases |digits|
  {
    if |digits| > 0 {
      assert (digits + "_" + rest)[1..] == digits[1..] + "_" + rest;
      UnderscoreAfterDigits(digits[1..], rest);
    }
  }

  /** Within one task, distinct images get distinct upload paths: the index ends at
      the first `_` after the task id, since digits are never `_`. */
  lemma UploadPathInjective(taskId: string, i: nat, f: string, j: nat, g: string)
    requires UploadPath(taskId, i, f) == UploadPath(taskId, j, g)
    ensures i == j && f == g
  {
    var prefix := TempDir + "/" + taskId + "_";
    var a, b := NatToString(i), NatToString(j);
    var s, t := a + "_" + f, b + "_" + g;
    assert UploadPath(taskId, i, f) == prefix + s;
    assert UploadPath(taskId, j, g) == prefix + t;
    assert s == t by {
      assert s == (prefix + s)[|prefix|..];
      assert t == (prefix + t)[|prefix|..];
    }
    UnderscoreAfterDigits(a, f);
    UnderscoreAfterDigits(b, g);
    assert a == s[..|a|] && b == t[..|b|];
    NatToStringInjective(i, j);
    assert f == s[|a| + 1..] && g == t[|b| + 1..];
  }

  /** Every uploaded image is saved under its own path, and no later upload of the
      same task overwrites it. */
  lemma {:induction false} SavedUploadAt(files: map<Path, FileContent>, taskId: string, images: seq<ImageUpload>, k: nat)
    requires k < |images|
    ensures UploadPath(taskId, k, images[k].filename) in SavedUploads(files, taskId, images)
    ensures SavedUploads(files, taskId, images)[UploadPath(taskId, k, images[k].filename)] == ImageFile(images[k].content)
    decreases |images|
  {
    var n := |images| - 1;
    if k < n {
      SavedUploadAt(files, taskId, images[..n], k);
      if UploadPath(taskId, n, images[n].filename) == UploadPath(taskId, k, images[k].filename) {
        UploadPathInjective(taskId, n, images[n].filename, k, images[k].filename);
      }
    }
  }

  /** The video path can coincide with an upload path: a video named `0_` followed
      by the first image's name is overwritten by that image, and the scan then
      opens no video. */
  lemma VideoOverwrittenByFirstImage(files: map<Path, FileContent>, taskId: string, video: Video, images: seq<ImageUpload>)
    requires |images| > 0
    ensures var videoPath := VideoPath(taskId, "0_" + images[0].filename);
      && videoPath == UploadPath(taskId, 0, images[0].filename)
      && VideoAt(SavedUploads(files[videoPath := VideoFile(video)], taskId, images), videoPath) == Unopened
  {
    var videoPath := VideoPath(taskId, "0_" + images[0].filename);
    assert NatToString(0) == "0";
    assert videoPath == UploadPath(taskId, 0, images[0].filename);
    SavedUploadAt(files[videoPath := VideoFile(video)], taskId, images, 0);
  }

  /** The `task_images` rows for the given images of a task. */
  function ImageRecords(taskId: string, infos: seq<ImageInfo>): seq<ImageRecord>
  {
    seq(|infos|, i requires 0 <= i < |infos| => ImageRecord(taskId, infos[i].path, infos[i].name))
  }

  /** Recording one more image appends its row. */
  lemma ImageRecordsAppend(taskId: string, infos: seq<ImageInfo>, info: ImageInfo)
    ensures ImageRecords(taskId, infos + [info]) == ImageRecords(taskId, infos) + [ImageRecord(taskId, info.path, info.name)]
  {
  }

  class Host {
    /** Task rows by `user_key` (the task id handed to the client). */
    var tasks: map<string, TaskRow>
    /** Rows of `task_images`, in insertion order. */
    var taskImages: seq<ImageRecord>
    /** Files that exist, with what they hold. */
    var files: map<Path, FileContent>
    /** Files whose removal raises. */
    var undeletable: set<Path>
    /** Status writes, scans and removals performed by runs, in order. */
    ghost var effects: seq<Effect>

    constructor (files: map<Path, FileContent>, undeletable: set<Path>)
      ensures this.tasks == map[] && this.taskImages == [] && this.effects == []
      ensures this.files == files && this.undeletable == undeletable
    {
      this.tasks := map[];
      this.taskImages := [];
      this.files := files;
      this.undeletable := undeletable;
      this.effects := [];
    }

    /** `add_task`: a new row in progress, without a result path. */
    method AddTask(key: string)
      modifies this`tasks
      ensures tasks == old(tasks)[key := TaskRow(InProgress, None)]
    {
      tasks := tasks[key := TaskRow(InProgress, None)];
    }

    /** `add_task_image`. */
    method AddTaskImage(key: string, path: Path, name: string)
      modifies this`taskImages
      ensures taskImages == old(taskImages) + [ImageRecord(key, path, name)]
    {
      taskImages := taskImages + [ImageRecord(key, path, name)];
    }

    /** `update_task_by_user_key`: overwrites status and result path of an existing
        row (a missing result path is written as NULL); reports whether a row existed. */
    method UpdateTaskByUserKey(key: string, status: Status, resultPath: Option<Path>) returns (updated: bool)
      modifies this`tasks, this`effects
      ensures updated == (key in old(tasks))
      ensures tasks == if updated then old(tasks)[key := TaskRow(status, resultPath)] else old(tasks)
      ensures effects == old(effects) + if updated then [StatusWritten(key, TaskRow(status, resultPath))] else []
    {
      updated := key in tasks;
      if updated {
        tasks := tasks[key := TaskRow(status, resultPath)];
        effects := effects + [StatusWritten(key, TaskRow(status, resultPath))];
      }
    }

    /** Writing a whole file. */
    method SaveFile(path: Path, content: FileContent)
      modifies this`files
      ensures files == old(files)[path := content]
    {
      files := files[path := content];
    }

    /** `os.remove` of an existing path: fails, changing nothing, on an undeletable file. */
    method RemoveFile(path: Path) returns (ok: bool)
      requires path in files
      modifies this`files, this`effects
      ensures ok == (path !in undeletable)
      ensures files == if ok then old(files) - {path} else old(files)
      ensures effects == old(effects) + if ok then [FileRemoved(path)] else []
    {
      ok := path !in undeletable;
      if ok {
        files := files - {path};
        effects := effects + [FileRemoved(path)];
      }
    }

    /** Removes each listed path that exists, in order, until a removal raises;
        reports whether one did. */
    method RemovePaths(paths: seq<Path>) returns (aborted: bool)
      modifies this`files, this`effects
      ensures var c := CleanupRun(paths, old(files).Keys, undeletable);
        && aborted == c.aborted
        && files == old(files) - (set p | p in c.removed)
        && effects == old(effects) + Removals(c.removed)
    {
      ghost var plan := CleanupRun(paths, files.Keys, undeletable);
      ghost var removed: seq<Path> := [];
      assert plan == Join(removed, CleanupRun(paths[0..], files.Keys, undeletable));
      aborted := false;
      var i := 0;
      while i < |paths| && !aborted
        invariant 0 <= i <= |paths|
        invariant files == old(files) - (set p | p in removed)
        invariant effects == old(effects) + Removals(removed)
        invariant !aborted ==> plan == Join(removed, CleanupRun(paths[i..], files.Keys, undeletable))
        invariant aborted ==> plan == Cleanup(removed, true)
      {
        var path := paths[i];
        assert paths[i..] == [path] + paths[i + 1..];
        CleanupStep(removed, path, paths[i + 1..], files.Keys, undeletable);
        if path in files {
          var ok := RemoveFile(path);
          if ok {
            RemovedOneMore(old(files), removed, path);
            removed := removed + [path];
          } else {
            aborted := true;
          }
        }
        i := i + 1;
      }
      if !aborted {
        assert paths[i..] == [];
        assert removed + [] == removed;
      }
    }

    /** The `finally` block of `process_video_task`: every image path, then the
        video, removed if it exists, until a removal raises. */
    method RemoveTempFiles(imagePaths: seq<ImageInfo>, videoPath: Path)
      modifies this`files, this`effects
      ensures var c := CleanupRun(TempPaths(imagePaths, videoPath), old(files).Keys, undeletable);
        && files == old(files) - (set p | p in c.removed)
        && effects == old(effects) + Removals(c.removed)
    {
      var images := PathsOf(imagePaths);
      ghost var first := CleanupRun(images, files.Keys, undeletable);
      CleanupAppend(images, [videoPath], files.Keys, undeletable);
      var aborted := RemovePaths(images);
      if !aborted {
        assert files.Keys == old(files).Keys - (set p | p in first.removed);
        assert [videoPath][1..] == [];
        if videoPath in files {
          var ok := RemoveFile(videoPath);
          if ok {
            RemovedOneMore(old(files), first.removed, videoPath);
          }
        }
        assert first.removed + [] == first.removed;
      }
    }
  }

  /** The cleanup so far followed by the cleanup of the remaining paths. */
  function Join(removed: seq<Path>, rest: Cleanup): Cleanup
  {
    Cleanup(removed + rest.removed, rest.aborted)
  }

  /** One visit of the cleanup: a missing path is skipped, an undeletable one stops
      it, any other is removed before the rest are visited. */
  lemma CleanupStep(removed: seq<Path>, p: Path, rest: seq<Path>, existing: set<Path>, undeletable: set<Path>)
    ensures Join(removed, CleanupRun([p] + rest, existing, undeletable)) ==
      if p !in existing then Join(removed, CleanupRun(rest, existing, undeletable))
      else if p in undeletable then Cleanup(removed, true)
      else Join(removed + [p], CleanupRun(rest, existing - {p}, undeletable))
  {
    assert ([p] + rest)[1..] == rest;
    assert removed + [] == removed;
  }

  /** Cleaning up two lists in a row: the second list is visited, among the files
      the first left, only when the first did not stop. */
  lemma {:induction false} CleanupAppend(a: seq<Path>, b: seq<Path>, existing: set<Path>, undeletable: set<Path>)
    ensures var first := CleanupRun(a, existing, undeletable);
      CleanupRun(a + b, existing, undeletable)
        == if first.aborted then first
           else Join(first.removed, CleanupRun(b, existing - (set p | p in first.removed), undeletable))
    decreases |a|
  {
    var first := CleanupRun(a, existing, undeletable);
    if |a| == 0 {
      assert a + b == b;
      assert existing - (set p | p in first.removed) == existing;
    } else {
      var p0 := a[0];
      assert (a + b)[0] == p0 && (a + b)[1..] == a[1..] + b;
      if p0 !in existing {
        CleanupAppend(a[1..], b, existing, undeletable);
      } else if p0 !in undeletable {
        CleanupAppend(a[1..], b, existing - {p0}, undeletable);
        var rest := CleanupRun(a[1..], existing - {p0}, undeletable);
        assert first.removed == [p0] + rest.removed;
        assert existing - {p0} - (set p | p in rest.removed) == existing - (set p | p in first.removed);
        assert [p0] + rest.removed + CleanupRun(b, existing - (set p | p in first.removed), undeletable).removed
          == [p0] + (rest.removed + CleanupRun(b, existing - (set p | p in first.removed), undeletable).removed);
      }
    }
  }

  /** Bookkeeping for one more removal. */
  lemma RemovedOneMore(files: map<Path, FileContent>, removed: seq<Path>, path: Path)
    ensures (files - (set p | p in removed)) - {path} == files - (set p | p in removed + [path])
    ensures Removals(removed + [path]) == Removals(removed) + [FileRemoved(path)]
  {
    assert (removed + [path])[..|removed|] == removed;
    assert (set p | p in removed + [path]) == (set p | p in removed) + {path};
  }

  // ---------------------------------------------------------------------------
  // The two entry points

  /** `recognize_face`: saves the video and every image under paths derived from
      the task id, creates the task row in progress, records each image with its
      chosen name, and returns the arguments of the background run. */
  method RecognizeFace(host: Host, taskId: string, videoFilename: string, video: Video,
                       images: seq<ImageUpload>, imageNames: NamesField)
    returns (imagePaths: seq<ImageInfo>, videoPath: Path)
    modifies host`files, host`tasks, host`taskImages
    ensures videoPath == VideoPath(taskId, videoFilename)
    ensures |imagePaths| == |images|
    ensures forall i :: 0 <= i < |images| ==>
      imagePaths[i] == ImageInfo(UploadPath(taskId, i, images[i].filename), ChosenName(NamesDict(imageNames), i))
    ensures host.tasks == old(host.tasks)[taskId := TaskRow(InProgress, None)]
    ensures host.taskImages == old(host.taskImages) + ImageRecords(taskId, imagePaths)
    ensures host.files == SavedUploads(old(host.files)[videoPath := VideoFile(video)], taskId, images)
    ensures host.undeletable == old(host.undeletable) && host.effects == old(host.effects)
  {
    videoPath := VideoPath(taskId, videoFilename);
    host.SaveFile(videoPath, VideoFile(video));
    var namesDict := NamesDict(imageNames);
    host.AddTask(taskId);
    imagePaths := SaveImages(host, taskId, images, namesDict);
    UploadInfosAt(taskId, images, namesDict);
  }

  /** The image loop of `recognize_face`: image i is saved under its upload path
      and recorded with its chosen name. */
  method SaveImages(host: Host, taskId: string, images: seq<ImageUpload>, namesDict: map<string, string>)
    returns (imagePaths: seq<ImageInfo>)
    modifies host`files, host`taskImages
    ensures imagePaths == UploadInfos(taskId, images, namesDict)
    ensures host.taskImages == old(host.taskImages) + ImageRecords(taskId, imagePaths)
    ensures host.files == SavedUploads(old(host.files), taskId, images)
  {
    imagePaths := [];
    var i := 0;
    while i < |images|
      invariant 0 <= i <= |images|
      invariant imagePaths == UploadInfos(taskId, images[..i], namesDict)
      invariant host.taskImages == old(host.taskImages) + ImageRecords(taskId, imagePaths)
      invariant host.files == SavedUploads(old(host.files), taskId, images[..i])
    {
      var imagePath := UploadPath(taskId, i, images[i].filename);
      UploadStep(old(host.files), taskId, images, namesDict, i);
      host.SaveFile(imagePath, ImageFile(images[i].content));
      var name := ChosenName(namesDict, i);
      host.AddTaskImage(taskId, imagePath, name);
      ImageRecordsAppend(taskId, imagePaths, ImageInfo(imagePath, name));
      ConcatAssociative(old(host.taskImages), ImageRecords(taskId, imagePaths), [ImageRecord(taskId, imagePath, name)]);
      imagePaths := imagePaths + [ImageInfo(imagePath, name)];
      i := i + 1;
    }
    assert images[..|images|] == images;
  }

  /** The ingest loop of `process_video_task`: a fresh recognizer offered every
      image of the task under key `image_{i}` with its recorded name (or
      "Лицо i+1"); a rejected image is skipped. */
  method IngestImages(files: map<Path, FileContent>, imagePaths: seq<ImageInfo>) returns (recognizer: FaceRecognitionLogic)
    ensures fresh(recognizer)
    ensures recognizer.Valid() && recognizer.frameCounter == 0
    ensures recognizer.Targets() == IngestedTargets(imagePaths, files)
  {
    recognizer := new FaceRecognitionLogic();
    var i := 0;
    while i < |imagePaths|
      invariant 0 <= i <= |imagePaths|
      invariant recognizer.Valid() && recognizer.Targets() == IngestedTargets(imagePaths[..i], files)
      modifies recognizer`targetEmbeddings, recognizer`targetNames, recognizer`order
    {
      OfferImage(recognizer, files, imagePaths, i);
      i := i + 1;
    }
    assert imagePaths[..|imagePaths|] == imagePaths;
  }

  /** One turn of the ingest loop: image `i` is offered under key `image_{i}` with
      its recorded name, or "Лицо i+1" when none was recorded. */
  method OfferImage(recognizer: FaceRecognitionLogic, files: map<Path, FileContent>, imagePaths: seq<ImageInfo>, i: nat)
    requires i < |imagePaths|
    requires recognizer.Valid() && recognizer.Targets() == IngestedTargets(imagePaths[..i], files)
    modifies recognizer`targetEmbeddings, recognizer`targetNames, recognizer`order
    ensures recognizer.Valid() && recognizer.Targets() == IngestedTargets(imagePaths[..i + 1], files)
  {
    var imageId := ImageIdFor(i);
    var name := IngestName(imagePaths[i].name, i);
    IngestedTargetsStep(imagePaths, files, i);
    IngestedIdsBelow(imagePaths[..i], files, i);
    recognizer.UnusedKeyNotListed(imageId);
    var _ := recognizer.AddTargetImage(ImageAt(files, imagePaths[i].path), imageId, Some(name));
  }

  /** The `try`/`except` part of `process_video_task`: ingests every image, fails
      the task without scanning when none was accepted, otherwise scans the video,
      writes the report and marks the task done; an escaping exception marks it
      failed instead. */
  method RunTask(host: Host, taskId: string, imagePaths: seq<ImageInfo>, videoPath: Path,
                 sim: (Embedding, Embedding) -> real, fault: Fault)
    modifies host`tasks, host`effects, host`files
    ensures var hasTargets := IngestedTargets(imagePaths, old(host.files)) != [];
      && host.tasks == (if taskId in old(host.tasks)
                        then old(host.tasks)[taskId := RunRow(taskId, hasTargets, fault)]
                        else old(host.tasks))
      && host.effects == old(host.effects) + RunEffects(old(host.tasks), taskId, hasTargets, fault, videoPath)
    ensures host.files == FilesAfterRun(old(host.files), taskId, imagePaths, videoPath, sim, fault)
  {
    ghost var hasTargets := IngestedTargets(imagePaths, host.files) != [];
    ghost var failed := if taskId in host.tasks then [StatusWritten(taskId, TaskRow(Error, None))] else [];
    if fault == FailsBeforeIngest {
      assert RunEffects(host.tasks, taskId, hasTargets, fault, videoPath) == failed;
      var _ := host.UpdateTaskByUserKey(taskId, Error, None);
      return;
    }
    var recognizer := IngestImages(host.files, imagePaths);
    assert |recognizer.targetEmbeddings| == |recognizer.Targets()|;
    if |recognizer.targetEmbeddings| == 0 {
      assert RunEffects(host.tasks, taskId, hasTargets, fault, videoPath) == failed;
      var _ := host.UpdateTaskByUserKey(taskId, Error, None);
      return;
    }
    ScanAndReport(host, recognizer, taskId, videoPath, sim, fault);
  }

  /** The part of a run after at least one reference was accepted: the scan
      starts; an exception during it fails the task, otherwise the report is
      written and then the task is done. */
  method ScanAndReport(host: Host, recognizer: FaceRecognitionLogic, taskId: string, videoPath: Path,
                       sim: (Embedding, Embedding) -> real, fault: Fault)
    requires recognizer.Valid() && recognizer.order != [] && fault != FailsBeforeIngest
    modifies host`tasks, host`effects, host`files, recognizer`frameCounter
    ensures host.tasks == if taskId in old(host.tasks)
                          then old(host.tasks)[taskId := RunRow(taskId, true, fault)]
                          else old(host.tasks)
    ensures host.effects == old(host.effects) + RunEffects(old(host.tasks), taskId, true, fault, videoPath)
    ensures host.files == if fault == NoFault
                          then old(host.files)[ResultPath(taskId) := ReportFile(RecognitionReport(
                                 recognizer.Targets(), VideoAt(old(host.files), videoPath), old(recognizer.frameCounter), sim))]
                          else old(host.files)
    ensures recognizer.frameCounter == old(recognizer.frameCounter)
      + if fault == NoFault then |DecodedFrames(VideoAt(old(host.files), videoPath))| else 0
  {
    ghost var written := if taskId in host.tasks then [StatusWritten(taskId, RunRow(taskId, true, fault))] else [];
    ghost var before := host.effects;
    host.effects := host.effects + [ScanStarted(videoPath)];
    if fault != NoFault {
      assert RunEffects(old(host.tasks), taskId, true, fault, videoPath) == [ScanStarted(videoPath)] + written;
      ConcatAssociative(before, [ScanStarted(videoPath)], written);
      var _ := host.UpdateTaskByUserKey(taskId, Error, None);
      return;
    }
    var report := recognizer.RecognizeInVideo(VideoAt(host.files, videoPath), sim);
    host.SaveFile(ResultPath(taskId), ReportFile(report));
    host.effects := host.effects + [ReportWritten(ResultPath(taskId))];
    ghost var scanned := [ScanStarted(videoPath), ReportWritten(ResultPath(taskId))];
    assert RunEffects(old(host.tasks), taskId, true, fault, videoPath) == scanned + written;
    assert host.effects == before + scanned;
    ConcatAssociative(before, scanned, written);
    var _ := host.UpdateTaskByUserKey(taskId, Done, Some(ResultPath(taskId)));
  }

  /** `process_video_task`: the run followed, in every case, by the removal of the
      temporary files. */
  method ProcessVideoTask(host: Host, taskId: string, imagePaths: seq<ImageInfo>, videoPath: Path,
                          sim: (Embedding, Embedding) -> real, fault: Fault)
    modifies host
    ensures var hasTargets := IngestedTargets(imagePaths, old(host.files)) != [];
      host.tasks == if taskId in old(host.tasks)
                    then old(host.tasks)[taskId := RunRow(taskId, hasTargets, fault)]
                    else old(host.tasks)
    ensures var hasTargets := IngestedTargets(imagePaths, old(host.files)) != [];
      var written := FilesAfterRun(old(host.files), taskId, imagePaths, videoPath, sim, fault);
      var c := CleanupRun(TempPaths(imagePaths, videoPath), written.Keys, host.undeletable);
      && host.files == written - (set p | p in c.removed)
      && host.effects == old(host.effects) + RunEffects(old(host.tasks), taskId, hasTargets, fault, videoPath)
                         + Removals(c.removed)
    ensures host.taskImages == old(host.taskImages) && host.undeletable == old(host.undeletable)
  {
    RunTask(host, taskId, imagePaths, videoPath, sim, fault);
    host.RemoveTempFiles(imagePaths, videoPath);
  }
}
