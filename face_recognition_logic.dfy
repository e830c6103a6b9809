/** The recognition engine of logic/face_recognition_logic.py: a reference set of
    target faces kept in two dictionaries with a shared insertion order, and a scan
    of a video that counts every decoded frame, analyses every Stride-th one and
    reports the best target for each detected face. */
module FaceRecognition {
  import opened Common
  import opened MatchSpec

  /** Why a reference image was rejected. */
  datatype AddError = UnreadableImage | NoFaceDetected

  /** `add_target_image` returns True or raises. */
  datatype AddOutcome = Added | Rejected(error: AddError)

  /** The outcome `add_target_image` has on an image. */
  function AddOutcomeOf(image: RefImage): (r: AddOutcome)
    ensures r == Added <==> image.Decoded? && |image.faces| > 0
    ensures r == Rejected(UnreadableImage) <==> image.Unreadable?
  {
    if image.Unreadable? then Rejected(UnreadableImage)
    else if |image.faces| == 0 then Rejected(NoFaceDetected)
    else Added
  }

  /** The display name stored for a target: the given name when it is a non-empty
      string, otherwise FacePrefix followed by the key. */
  function TargetName(name: Option<string>, imageId: ImageId): (r: string)
    ensures r != ""
    ensures name.Some? && name.value != "" ==> r == name.value
    ensures name.None? || name.value == "" ==> r == FacePrefix + imageId
  {
    if name.Some? && name.value != "" then name.value else FacePrefix + imageId
  }

  /** The targets listed in `order`, each with its embedding and its name. */
  function TargetList(order: seq<ImageId>, embeddings: map<ImageId, Embedding>, names: map<ImageId, string>): (ts: seq<Target>)
    requires forall id :: id in order ==> id in embeddings && id in names
  {
    seq(|order|, k requires 0 <= k < |order| => Target(order[k], embeddings[order[k]], names[order[k]]))
  }

  /** Inserting a new key appends its target and leaves the others as they were. */
  lemma TargetListAppend(order: seq<ImageId>, embeddings: map<ImageId, Embedding>, names: map<ImageId, string>,
                         id: ImageId, embedding: Embedding, name: string)
    requires forall x :: x in order ==> x in embeddings && x in names
    requires id !in order
    ensures TargetList(order + [id], embeddings[id := embedding], names[id := name])
      == TargetList(order, embeddings, names) + [Target(id, embedding, name)]
  {
    var before := TargetList(order, embeddings, names);
    var after := TargetList(order + [id], embeddings[id := embedding], names[id := name]);
    assert forall k :: 0 <= k < |order| ==> (order + [id])[k] == order[k] != id;
    assert forall k :: 0 <= k < |order| ==> after[k] == before[k];
  }

  class FaceRecognitionLogic {
    /** Counts every frame decoded by every scan of this instance. */
    var frameCounter: nat
    /** `target_embeddings`: key to embedding of the first face found. */
    var targetEmbeddings: map<ImageId, Embedding>
    /** `target_names`: key to display name. */
    var targetNames: map<ImageId, string>
    /** The iteration order of both dictionaries: keys in order of first insertion. */
    var order: seq<ImageId>

    /** Both dictionaries have the same keys, and `order` lists each key once. */
    ghost predicate Valid()
      reads this`targetEmbeddings, this`targetNames, this`order
    {
      && Distinct(order)
      && targetEmbeddings.Keys == (set id | id in order)
      && targetNames.Keys == (set id | id in order)
      && |targetEmbeddings| == |order|
    }

    /** The reference set in iteration order. */
    function Targets(): (ts: seq<Target>)
      reads this`targetEmbeddings, this`targetNames, this`order
      requires Valid()
    {
      TargetList(order, targetEmbeddings, targetNames)
    }

    /** A key that no target carries is not listed. */
    lemma UnusedKeyNotListed(id: ImageId)
      requires Valid()
      requires forall t :: t in Targets() ==> t.id != id
      ensures id !in order
    {
      forall k | 0 <= k < |order|
        ensures order[k] != id
      {
        assert Targets()[k].id == order[k];
        assert Targets()[k] in Targets();
      }
    }

    constructor ()
      ensures Valid()
      ensures frameCounter == 0 && order == []
      ensures targetEmbeddings == map[] && targetNames == map[]
    {
      frameCounter := 0;
      targetEmbeddings := map[];
      targetNames := map[];
      order := [];
    }

    /** `add_target_image`: rejects an unreadable image or one without a face and
        then changes nothing; otherwise writes exactly the key `imageId` in both
        dictionaries (the embedding of the first face, the display name), keeping
        its place if it was present and appending it otherwise. */
    method AddTargetImage(image: RefImage, imageId: ImageId, name: Option<string>) returns (outcome: AddOutcome)
      requires Valid()
      modifies this`targetEmbeddings, this`targetNames, this`order
      ensures Valid()
      ensures outcome == AddOutcomeOf(image)
      ensures outcome.Rejected? ==>
        targetEmbeddings == old(targetEmbeddings) && targetNames == old(targetNames) && order == old(order)
      ensures outcome == Added ==>
        && targetEmbeddings == old(targetEmbeddings)[imageId := image.faces[0]]
        && targetNames == old(targetNames)[imageId := TargetName(name, imageId)]
        && order == if imageId in old(order) then old(order) else old(order) + [imageId]
      ensures outcome == Added && imageId !in old(order) ==>
        Targets() == old(Targets()) + [Target(imageId, image.faces[0], TargetName(name, imageId))]
    {
      if image.Unreadable? {
        return Rejected(UnreadableImage);
      }
      if |image.faces| == 0 {
        return Rejected(NoFaceDetected);
      }
      var isNew := imageId !in targetEmbeddings;
      targetEmbeddings := targetEmbeddings[imageId := image.faces[0]];
      targetNames := targetNames[imageId := TargetName(name, imageId)];
      if isNew {
        TargetListAppend(order, old(targetEmbeddings), old(targetNames), imageId, image.faces[0], TargetName(name, imageId));
        order := order + [imageId];
      }
      outcome := Added;
    }

    /** `clear_targets`: empties both dictionaries. */
    method ClearTargets()
      modifies this`targetEmbeddings, this`targetNames, this`order
      ensures Valid()
      ensures targetEmbeddings == map[] && targetNames == map[] && order == []
    {
      targetEmbeddings := map[];
      targetNames := map[];
      order := [];
    }

    /** The scan over the targets for one detected face: the position, in iteration
        order, of the first target with the highest confidence above the threshold,
        with that confidence. */
    method BestTarget(face: Embedding, sim: (Embedding, Embedding) -> real) returns (best: Option<nat>, bestConfidence: real)
      requires Valid()
      ensures best == BestMatch(Confidences(Targets(), face, sim))
      ensures best.None? <==> forall t :: t in Targets() ==> sim(t.embedding, face) <= Threshold
      ensures best.Some? ==> IsBestMatch(Confidences(Targets(), face, sim), best.value)
      ensures best.Some? ==> bestConfidence == Confidences(Targets(), face, sim)[best.value]
    {
      ghost var cs := Confidences(Targets(), face, sim);
      assert forall j :: 0 <= j < |order| ==> cs[j] == sim(targetEmbeddings[order[j]], face);
      best, bestConfidence := ScanTargets(face, sim, cs);
      BestTargetCharacterized(Targets(), face, sim);
    }

    /** The loop of the target scan, against the confidences `cs` it computes one
        by one: a target replaces the best so far when its confidence exceeds the
        threshold and the best confidence so far. */
    method ScanTargets(face: Embedding, sim: (Embedding, Embedding) -> real, ghost cs: seq<real>)
      returns (best: Option<nat>, bestConfidence: real)
      requires forall j :: 0 <= j < |order| ==> order[j] in targetEmbeddings
      requires |cs| == |order| && forall j :: 0 <= j < |order| ==> cs[j] == sim(targetEmbeddings[order[j]], face)
      ensures best == BestMatch(cs)
      ensures bestConfidence == if best.Some? then cs[best.value] else 0.0
    {
      best, bestConfidence := None, 0.0;
      var k := 0;
      while k < |order|
        invariant 0 <= k <= |order|
        invariant best == BestIn(cs, k)
        invariant bestConfidence == if best.Some? then cs[best.value] else 0.0
      {
        var confidence := sim(targetEmbeddings[order[k]], face);
        if confidence > Threshold && confidence > bestConfidence {
          best, bestConfidence := Some(k), confidence;
        }
        k := k + 1;
      }
    }

    /** The body of the `try` for one analysed frame: the lines of its faces in
        detector order, then an error line if processing raised. */
    method AnalyseFrame(frame: Frame, counter: nat, sim: (Embedding, Embedding) -> real) returns (frameLines: seq<ReportLine>)
      requires Valid()
      ensures frameLines == FrameLines(Targets(), frame, counter, sim)
    {
      frameLines := [];
      var j := 0;
      while j < |frame.faces|
        invariant 0 <= j <= |frame.faces|
        invariant frameLines == FaceLines(Targets(), frame.faces[..j], counter, sim)
      {
        var best, bestConfidence := BestTarget(frame.faces[j], sim);
        if best.Some? && order[best.value] != "" {
          frameLines := frameLines + [Match(counter, targetNames[order[best.value]], bestConfidence)];
        }
        assert frame.faces[..j + 1][..j] == frame.faces[..j];
        j := j + 1;
      }
      assert frame.faces[..|frame.faces|] == frame.faces;
      if frame.fails {
        frameLines := frameLines + [FrameError(counter)];
      }
    }

    /** The frame loop of `recognize_in_video`: every decoded frame is counted, and
        a frame whose count is a multiple of Stride is analysed; the lines are the
        events ScanLines describes from the old counter. */
    method ScanFrames(frames: seq<Frame>, sim: (Embedding, Embedding) -> real) returns (events: seq<ReportLine>)
      requires Valid()
      modifies this`frameCounter
      ensures frameCounter == old(frameCounter) + |frames|
      ensures events == ScanLines(Targets(), frames, old(frameCounter), sim)
    {
      ghost var start := frameCounter;
      ghost var targets := Targets();
      events := [];
      var i := 0;
      while i < |frames|
        invariant 0 <= i <= |frames|
        invariant frameCounter == start + i
        invariant Targets() == targets
        invariant events == ScanLines(targets, frames[..i], start, sim)
      {
        frameCounter := frameCounter + 1;
        if frameCounter % Stride == 0 {
          var frameLines := AnalyseFrame(frames[i], frameCounter, sim);
          ScanLinesAnalysed(targets, frames, i, start, frameCounter, sim, events, frameLines);
          events := events + frameLines;
        } else {
          ScanLinesSkipped(targets, frames, i, start, frameCounter, sim);
        }
        i := i + 1;
      }
      assert frames[..|frames|] == frames;
    }

    /** `recognize_in_video`: without targets, the fixed error and nothing changes;
        otherwise the counter grows by the number of decoded frames and the report
        is the one RecognitionReport describes. */
    method RecognizeInVideo(video: Video, sim: (Embedding, Embedding) -> real) returns (report: Report)
      requires Valid()
      modifies this`frameCounter
      ensures report == RecognitionReport(Targets(), video, old(frameCounter), sim)
      ensures frameCounter == if order == [] then old(frameCounter) else old(frameCounter) + |DecodedFrames(video)|
    {
      if |targetEmbeddings| == 0 {
        return NoTargets;
      }
      report := ReportVideo(video, sim);
    }

    /** The part of `recognize_in_video` after the check for targets: the header,
        the lines of the scan, and the summary with the counter after the scan. */
    method ReportVideo(video: Video, sim: (Embedding, Embedding) -> real) returns (report: Report)
      requires Valid() && |targetEmbeddings| > 0
      modifies this`frameCounter
      ensures report == Lines(ReportLines(Targets(), DecodedFrames(video), old(frameCounter), sim))
      ensures frameCounter == old(frameCounter) + |DecodedFrames(video)|
    {
      ghost var start, targets := frameCounter, Targets();
      var frames := if video.Opened? then video.frames else [];
      var header := [Title, TargetCount(|targetEmbeddings|), Separator];
      assert header == Header(|targets|) && frames == DecodedFrames(video);
      var events := ScanFrames(frames, sim);
      assert Targets() == targets && events == ScanLines(targets, frames, start, sim);
      var footer := [Separator, Summary(frameCounter)];
      assert footer == [Separator, Summary(start + |frames|)];
      report := Lines(header + events + footer);
    }
  }
}
