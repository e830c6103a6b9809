/** What a scan of a video produces, stated as functions over the recognition
    engine's inputs: the reference targets in insertion order, the decoded frames,
    the running frame counter and the confidence step. The imperative engine in
    module FaceRecognition is proved to produce exactly these values. */
module MatchSpec {
  import opened Common

  /** A face embedding; its numeric content matters only to the confidence step. */
  type Embedding = seq<real>

  /** Key of a reference image (`image_id`). */
  type ImageId = string

  /** `self.threshold * 100`: a candidate must score strictly above this. */
  const Threshold: real := 60.0

  /** Only every Stride-th decoded frame is analysed. */
  const Stride: nat := 5

  /** Prefix of the name given to a reference image that arrives without one. */
  const FacePrefix: string := "Лицо "

  /** One reference face: its key, its embedding and its display name. */
  datatype Target = Target(id: ImageId, embedding: Embedding, name: string)

  /** A reference image as the decoder and the detector see it: unreadable, or
      decoded with the embeddings of the faces found in it (possibly none). */
  datatype RefImage = Unreadable | Decoded(faces: seq<Embedding>)

  /** One decoded frame as the analysis sees it: the embeddings of the faces that
      were processed, in detector order, and whether processing then raised an
      exception (which ends the frame's analysis). */
  datatype Frame = Frame(faces: seq<Embedding>, fails: bool)

  /** A video source: it cannot be opened, or it decodes to a finite sequence of frames. */
  datatype Video = Unopened | Opened(frames: seq<Frame>)

  /** One line of the report; wall-clock times are left out and the timestamp of a
      frame is replaced by the frame counter value at which it was analysed. */
  datatype ReportLine =
    | Title                                          // "report of ... <now>"
    | TargetCount(count: nat)                        // number of reference faces
    | Separator                                      // fifty dashes
    | Match(at: nat, name: string, confidence: real)  // a face recognised in a frame
    | FrameError(at: nat)                            // analysis of a frame raised
    | Summary(frames: nat)                           // total decoded frames so far
  {
    predicate IsEvent() { Match? || FrameError? }
  }

  /** What `recognize_in_video` returns: the fixed error text, or the report lines. */
  datatype Report = NoTargets | Lines(lines: seq<ReportLine>)

  /** The frames a video decodes to: none when it cannot be opened. */
  function DecodedFrames(v: Video): seq<Frame>
  {
    if v.Opened? then v.frames else []
  }

  /** The confidence of one detected face against every target, in target order. */
  function Confidences(targets: seq<Target>, face: Embedding, sim: (Embedding, Embedding) -> real): seq<real>
  {
    seq(|targets|, k requires 0 <= k < |targets| => sim(targets[k].embedding, face))
  }

  // ---------------------------------------------------------------------------
  // Best match over the targets

  /** The index the scan over the first `n` confidences settles on: a candidate
      replaces the current best only when it exceeds the threshold and the best
      confidence so far (which starts at 0). */
  function BestIn(cs: seq<real>, n: nat): (r: Option<nat>)
    requires n <= |cs|
    ensures r.Some? ==> r.value < n && cs[r.value] > Threshold
  {
    if n == 0 then None
    else
      var prev := BestIn(cs, n - 1);
      var best := if prev.Some? then cs[prev.value] else 0.0;
      if cs[n - 1] > Threshold && cs[n - 1] > best then Some(n - 1) else prev
  }

  /** The index the scan over all the confidences settles on. */
  function BestMatch(cs: seq<real>): (r: Option<nat>)
    ensures r.Some? ==> r.value < |cs| && cs[r.value] > Threshold
  {
    BestIn(cs, |cs|)
  }

  /** Among the first `n` confidences, index k holds one above the threshold, no
      other is larger, and every earlier one is strictly smaller (the first of the
      maxima). */
  ghost predicate IsBestIn(cs: seq<real>, n: nat, k: nat)
    requires n <= |cs|
  {
    && k < n
    && cs[k] > Threshold
    && (forall j :: 0 <= j < n ==> cs[j] <= cs[k])
    && (forall j :: 0 <= j < k ==> cs[j] < cs[k])
  }

  /** IsBestIn over all the confidences. */
  ghost predicate IsBestMatch(cs: seq<real>, k: nat)
  {
    IsBestIn(cs, |cs|, k)
  }

  /** Over the first `n` confidences the scan finds nothing exactly when none
      exceeds the threshold, and otherwise finds the earliest maximal one and
      nothing else. */
  lemma {:induction false} BestInCharacterized(cs: seq<real>, n: nat)
    requires n <= |cs|
    ensures BestIn(cs, n).None? <==> forall j :: 0 <= j < n ==> cs[j] <= Threshold
    ensures forall k: nat :: BestIn(cs, n) == Some(k) <==> IsBestIn(cs, n, k)
  {
    if n > 0 {
      var m := n - 1;
      BestInCharacterized(cs, m);
      var prev := BestIn(cs, m);
      if prev.Some? {
        assert IsBestIn(cs, m, prev.value);
      }
      if BestIn(cs, n) == Some(m) {
        assert forall j :: 0 <= j < m ==> cs[j] < cs[m];
        assert IsBestIn(cs, n, m);
      } else {
        assert BestIn(cs, n) == prev;
        if prev.Some? {
          var b := prev.value;
          assert cs[m] <= cs[b];
          assert IsBestIn(cs, n, b);
          forall k: nat | IsBestIn(cs, n, k) ensures k == b {
            if k != m {
              assert IsBestIn(cs, m, k);
            }
          }
        } else {
          assert cs[m] <= Threshold;
        }
      }
    }
  }

  /** The scan finds nothing exactly when no confidence exceeds the threshold, and
      otherwise finds the earliest maximal confidence and nothing else. */
  lemma BestMatchCharacterized(cs: seq<real>)
    ensures BestMatch(cs).None? <==> forall j :: 0 <= j < |cs| ==> cs[j] <= Threshold
    ensures forall k: nat :: BestMatch(cs) == Some(k) <==> IsBestMatch(cs, k)
  {
    BestInCharacterized(cs, |cs|);
  }

  /** Over targets: no target is selected exactly when none scores above the
      threshold, and a selected target is the first of the maxima. */
  lemma BestTargetCharacterized(targets: seq<Target>, face: Embedding, sim: (Embedding, Embedding) -> real)
    ensures var cs := Confidences(targets, face, sim);
      BestMatch(cs).None? <==> forall t :: t in targets ==> sim(t.embedding, face) <= Threshold
    ensures var cs := Confidences(targets, face, sim);
      BestMatch(cs).Some? ==> IsBestMatch(cs, BestMatch(cs).value)
  {
    var cs := Confidences(targets, face, sim);
    BestMatchCharacterized(cs);
    if BestMatch(cs).Some? {
      var k := BestMatch(cs).value;
      assert targets[k] in targets;
    } else {
      forall t | t in targets ensures sim(t.embedding, face) <= Threshold {
        var j :| 0 <= j < |targets| && targets[j] == t;
        assert cs[j] == sim(t.embedding, face);
      }
    }
  }

  // ---------------------------------------------------------------------------
  // Lines of one analysed frame

  /** The line one detected face contributes: one Match line naming the best
      target, or nothing when no target qualifies or the winning key is empty
      (`if best_match_id:` tests the key for truth). */
  function MatchLines(targets: seq<Target>, face: Embedding, at: nat, sim: (Embedding, Embedding) -> real): seq<ReportLine>
  {
    var cs := Confidences(targets, face, sim);
    match BestMatch(cs)
    case None => []
    case Some(k) => if targets[k].id != "" then [Match(at, targets[k].name, cs[k])] else []
  }

  /** The lines of the faces of one frame, in detector order. */
  function FaceLines(targets: seq<Target>, faces: seq<Embedding>, at: nat, sim: (Embedding, Embedding) -> real): seq<ReportLine>
    decreases |faces|
  {
    if |faces| == 0 then []
    else FaceLines(targets, faces[..|faces| - 1], at, sim) + MatchLines(targets, faces[|faces| - 1], at, sim)
  }

  /** The lines of one analysed frame: its faces' lines, then an error line if
      processing raised. */
  function FrameLines(targets: seq<Target>, f: Frame, at: nat, sim: (Embedding, Embedding) -> real): seq<ReportLine>
  {
    FaceLines(targets, f.faces, at, sim) + (if f.fails then [FrameError(at)] else [])
  }

  /** A decoded frame is analysed when the counter, after counting it, is a multiple of Stride. */
  predicate Analysed(counter: nat)
  {
    counter % Stride == 0
  }

  /** The lines a decoded frame contributes, given the counter value after counting it. */
  function SampleLines(targets: seq<Target>, f: Frame, counter: nat, sim: (Embedding, Embedding) -> real): seq<ReportLine>
  {
    if Analysed(counter) then FrameLines(targets, f, counter, sim) else []
  }

  /** The event lines of a scan of `frames` whose counter starts at `start`. */
  function ScanLines(targets: seq<Target>, frames: seq<Frame>, start: nat, sim: (Embedding, Embedding) -> real): seq<ReportLine>
    decreases |frames|
  {
    if |frames| == 0 then []
    else
      ScanLines(targets, frames[..|frames| - 1], start, sim)
        + SampleLines(targets, frames[|frames| - 1], start + |frames|, sim)
  }

  /** Scanning one more frame that is analysed appends that frame's lines. */
  lemma ScanLinesAnalysed(targets: seq<Target>, frames: seq<Frame>, i: nat, start: nat, counter: nat,
                          sim: (Embedding, Embedding) -> real, events: seq<ReportLine>, frameLines: seq<ReportLine>)
    requires i < |frames| && counter == start + i + 1 && Analysed(counter)
    requires events == ScanLines(targets, frames[..i], start, sim)
    requires frameLines == FrameLines(targets, frames[i], counter, sim)
    ensures events + frameLines == ScanLines(targets, frames[..i + 1], start, sim)
  {
    assert frames[..i + 1][..i] == frames[..i];
  }

  /** Scanning one more frame that is not analysed appends nothing. */
  lemma ScanLinesSkipped(targets: seq<Target>, frames: seq<Frame>, i: nat, start: nat, counter: nat,
                         sim: (Embedding, Embedding) -> real)
    requires i < |frames| && counter == start + i + 1 && !Analysed(counter)
    ensures ScanLines(targets, frames[..i], start, sim) == ScanLines(targets, frames[..i + 1], start, sim)
  {
    assert frames[..i + 1][..i] == frames[..i];
    assert ScanLines(targets, frames[..i], start, sim) + [] == ScanLines(targets, frames[..i], start, sim);
  }

  /** The three header lines. */
  function Header(count: nat): seq<ReportLine>
  {
    [Title, TargetCount(count), Separator]
  }

  /** The complete report of a scan with at least one target. */
  function ReportLines(targets: seq<Target>, frames: seq<Frame>, start: nat, sim: (Embedding, Embedding) -> real): seq<ReportLine>
  {
    Header(|targets|) + ScanLines(targets, frames, start, sim) + [Separator, Summary(start + |frames|)]
  }

  /** What `recognize_in_video` returns for the given targets, video and counter. */
  function RecognitionReport(targets: seq<Target>, video: Video, start: nat, sim: (Embedding, Embedding) -> real): Report
  {
    if |targets| == 0 then NoTargets
    else Lines(ReportLines(targets, DecodedFrames(video), start, sim))
  }

  // ---------------------------------------------------------------------------
  // Properties of the report

  /** A face yields the line of its best target when there is one, and no line when
      no confidence exceeds the threshold. */
  lemma MatchLinesSpec(targets: seq<Target>, face: Embedding, at: nat, sim: (Embedding, Embedding) -> real)
    ensures var cs := Confidences(targets, face, sim);
      forall k: nat :: IsBestMatch(cs, k) ==>
        MatchLines(targets, face, at, sim)
          == if targets[k].id != "" then [Match(at, targets[k].name, cs[k])] else []
    ensures var cs := Confidences(targets, face, sim);
      (forall j :: 0 <= j < |cs| ==> cs[j] <= Threshold) ==> MatchLines(targets, face, at, sim) == []
  {
    BestMatchCharacterized(Confidences(targets, face, sim));
  }

  /** With non-empty keys, a face yields a line exactly when some target's
      confidence exceeds the threshold, and that line reports a confidence above
      the threshold that no target beats. */
  lemma MatchLineExistsIff(targets: seq<Target>, face: Embedding, at: nat, sim: (Embedding, Embedding) -> real)
    requires forall t :: t in targets ==> t.id != ""
    ensures var cs := Confidences(targets, face, sim);
      MatchLines(targets, face, at, sim) != [] <==> exists j :: 0 <= j < |cs| && cs[j] > Threshold
    ensures var cs := Confidences(targets, face, sim);
      forall l :: l in MatchLines(targets, face, at, sim) ==>
        l.Match? && l.at == at && l.confidence > Threshold
        && forall j :: 0 <= j < |cs| ==> cs[j] <= l.confidence
  {
    var cs := Confidences(targets, face, sim);
    BestMatchCharacterized(cs);
    var b := BestMatch(cs);
    if b.Some? {
      assert targets[b.value] in targets;
    }
  }

  /** Every line of a frame is an event stamped with that frame's counter; an error
      line appears exactly when processing raised, and then as the last line. */
  lemma {:induction false} FrameLinesShape(targets: seq<Target>, f: Frame, at: nat, sim: (Embedding, Embedding) -> real)
    ensures forall l :: l in FrameLines(targets, f, at, sim) ==> l.IsEvent() && l.at == at
    ensures forall l :: l in FaceLines(targets, f.faces, at, sim) ==> l.Match?
    ensures var ls := FrameLines(targets, f, at, sim);
      f.fails <==> (|ls| > 0 && ls[|ls| - 1] == FrameError(at))
  {
    FaceLinesAreMatches(targets, f.faces, at, sim);
  }

  lemma {:induction false} FaceLinesAreMatches(targets: seq<Target>, faces: seq<Embedding>, at: nat, sim: (Embedding, Embedding) -> real)
    ensures forall l :: l in FaceLines(targets, faces, at, sim) ==> l.Match? && l.at == at
    decreases |faces|
  {
    if |faces| > 0 {
      FaceLinesAreMatches(targets, faces[..|faces| - 1], at, sim);
    }
  }

  /** Every line of a scan is an event whose counter lies in (start, start + |frames|]. */
  lemma {:induction false} ScanLinesWithin(targets: seq<Target>, frames: seq<Frame>, start: nat, sim: (Embedding, Embedding) -> real)
    ensures forall l :: l in ScanLines(targets, frames, start, sim) ==> l.IsEvent() && start < l.at <= start + |frames|
    decreases |frames|
  {
    if |frames| > 0 {
      var n := |frames|;
      ScanLinesWithin(targets, frames[..n - 1], start, sim);
      FrameLinesShape(targets, frames[n - 1], start + n, sim);
      var last := SampleLines(targets, frames[n - 1], start + n, sim);
      assert forall l :: l in last ==> l.IsEvent() && l.at == start + n;
      assert ScanLines(targets, frames, start, sim) == ScanLines(targets, frames[..n - 1], start, sim) + last;
    }
  }

  /** Every event of a scan comes from an analysed frame of that scan: its counter
      lies in (start, start + |frames|] and is a multiple of Stride. */
  lemma {:induction false} ScanLinesSampled(targets: seq<Target>, frames: seq<Frame>, start: nat, sim: (Embedding, Embedding) -> real)
    ensures forall l :: l in ScanLines(targets, frames, start, sim) ==>
      l.IsEvent() && start < l.at <= start + |frames| && Analysed(l.at)
    decreases |frames|
  {
    if |frames| > 0 {
      var n := |frames|;
      ScanLinesSampled(targets, frames[..n - 1], start, sim);
      FrameLinesShape(targets, frames[n - 1], start + n, sim);
      var last := SampleLines(targets, frames[n - 1], start + n, sim);
      assert forall l :: l in last ==> l.IsEvent() && start < l.at <= start + n && Analysed(l.at);
      assert ScanLines(targets, frames, start, sim) == ScanLines(targets, frames[..n - 1], start, sim) + last;
    }
  }

  /** Event lines whose frame counters never decrease. */
  ghost predicate InPlaybackOrder(ls: seq<ReportLine>)
  {
    forall i, j :: 0 <= i < j < |ls| ==> ls[i].IsEvent() && ls[j].IsEvent() && ls[i].at <= ls[j].at
  }

  lemma InPlaybackOrderAppend(a: seq<ReportLine>, b: seq<ReportLine>, k: nat)
    requires InPlaybackOrder(a)
    requires forall l :: l in a ==> l.IsEvent() && l.at < k
    requires forall l :: l in b ==> l.IsEvent() && l.at == k
    ensures InPlaybackOrder(a + b)
  {
    var ls := a + b;
    forall i, j | 0 <= i < j < |ls| ensures ls[i].IsEvent() && ls[j].IsEvent() && ls[i].at <= ls[j].at {
      if j < |a| {
        assert ls[i] == a[i] && ls[j] == a[j];
      } else if i < |a| {
        assert ls[i] == a[i] && a[i] in a;
        assert ls[j] == b[j - |a|] && b[j - |a|] in b;
      } else {
        assert ls[i] == b[i - |a|] && b[i - |a|] in b;
        assert ls[j] == b[j - |a|] && b[j - |a|] in b;
      }
    }
  }

  /** Report lines follow playback order: the counters of the events never decrease. */
  lemma {:induction false} ScanLinesInPlaybackOrder(targets: seq<Target>, frames: seq<Frame>, start: nat, sim: (Embedding, Embedding) -> real)
    ensures InPlaybackOrder(ScanLines(targets, frames, start, sim))
    decreases |frames|
  {
    if |frames| > 0 {
      var n := |frames|;
      var before := ScanLines(targets, frames[..n - 1], start, sim);
      var last := SampleLines(targets, frames[n - 1], start + n, sim);
      ScanLinesInPlaybackOrder(targets, frames[..n - 1], start, sim);
      ScanLinesWithin(targets, frames[..n - 1], start, sim);
      FrameLinesShape(targets, frames[n - 1], start + n, sim);
      InPlaybackOrderAppend(before, last, start + n);
      assert ScanLines(targets, frames, start, sim) == before + last;
    }
  }

  /** Frames that are not analysed do not influence the report: two videos of the
      same length that agree on the analysed frames give the same events. */
  lemma {:induction false} UnsampledFramesIgnored(targets: seq<Target>, frames: seq<Frame>, others: seq<Frame>, start: nat, sim: (Embedding, Embedding) -> real)
    requires |frames| == |others|
    requires forall i :: 0 <= i < |frames| && Analysed(start + i + 1) ==> frames[i] == others[i]
    ensures ScanLines(targets, frames, start, sim) == ScanLines(targets, others, start, sim)
    decreases |frames|
  {
    if |frames| > 0 {
      var n := |frames|;
      UnsampledFramesIgnored(targets, frames[..n - 1], others[..n - 1], start, sim);
      if Analysed(start + n) {
        assert frames[n - 1] == others[n - 1];
      }
    }
  }

  /** The report has three header lines (the second carrying the target count),
      then only event lines, then a separator and the frame counter after the scan;
      a video without frames (or one that cannot be opened) gives header and footer only. */
  lemma ReportShape(targets: seq<Target>, frames: seq<Frame>, start: nat, sim: (Embedding, Embedding) -> real)
    ensures var r := ReportLines(targets, frames, start, sim);
      && |r| >= 5
      && r[..3] == [Title, TargetCount(|targets|), Separator]
      && r[|r| - 2..] == [Separator, Summary(start + |frames|)]
      && (forall i :: 3 <= i < |r| - 2 ==> r[i].IsEvent())
      && (frames == [] ==> r == [Title, TargetCount(|targets|), Separator, Separator, Summary(start)])
  {
    var events := ScanLines(targets, frames, start, sim);
    ScanLinesSampled(targets, frames, start, sim);
    var r := ReportLines(targets, frames, start, sim);
    forall i | 3 <= i < |r| - 2 ensures r[i].IsEvent() {
      assert r[i] == events[i - 3];
      assert events[i - 3] in events;
    }
  }

  /** Counters 1..5: only the fifth frame is analysed. */
  lemma FirstFiveFrames(targets: seq<Target>, frames: seq<Frame>, sim: (Embedding, Embedding) -> real)
    requires |frames| >= 5
    ensures ScanLines(targets, frames[..5], 0, sim) == FrameLines(targets, frames[4], 5, sim)
  {
    assert frames[..0] == [];
    ScanLinesSkipped(targets, frames, 0, 0, 1, sim);
    ScanLinesSkipped(targets, frames, 1, 0, 2, sim);
    ScanLinesSkipped(targets, frames, 2, 0, 3, sim);
    ScanLinesSkipped(targets, frames, 3, 0, 4, sim);
    ScanLinesAnalysed(targets, frames, 4, 0, 5, sim, [], FrameLines(targets, frames[4], 5, sim));
  }

  /** Counters 6..10: only the tenth frame is analysed. */
  lemma NextFiveFrames(targets: seq<Target>, frames: seq<Frame>, sim: (Embedding, Embedding) -> real)
    requires |frames| >= 10
    ensures ScanLines(targets, frames[..10], 0, sim)
      == ScanLines(targets, frames[..5], 0, sim) + FrameLines(targets, frames[9], 10, sim)
  {
    ScanLinesSkipped(targets, frames, 5, 0, 6, sim);
    ScanLinesSkipped(targets, frames, 6, 0, 7, sim);
    ScanLinesSkipped(targets, frames, 7, 0, 8, sim);
    ScanLinesSkipped(targets, frames, 8, 0, 9, sim);
    ScanLinesAnalysed(targets, frames, 9, 0, 10, sim, ScanLines(targets, frames[..9], 0, sim), FrameLines(targets, frames[9], 10, sim));
  }

  /** A scan of twelve frames from counter 0 analyses the frames counted 5 and 10
      and no others, and its summary reports 12 frames. */
  lemma TwelveFrames(targets: seq<Target>, frames: seq<Frame>, sim: (Embedding, Embedding) -> real)
    requires |frames| == 12
    ensures ScanLines(targets, frames, 0, sim)
      == FrameLines(targets, frames[4], 5, sim) + FrameLines(targets, frames[9], 10, sim)
    ensures ReportLines(targets, frames, 0, sim)[|ReportLines(targets, frames, 0, sim)| - 1] == Summary(12)
  {
    FirstFiveFrames(targets, frames, sim);
    NextFiveFrames(targets, frames, sim);
    ScanLinesSkipped(targets, frames, 10, 0, 11, sim);
    ScanLinesSkipped(targets, frames, 11, 0, 12, sim);
    assert frames[..12] == frames;
    ReportShape(targets, frames, 0, sim);
  }

  /** A stretch of frames none of which is analysed contributes no lines. */
  lemma {:induction false} ScanLinesNone(targets: seq<Target>, frames: seq<Frame>, start: nat, sim: (Embedding, Embedding) -> real)
    requires start % Stride + |frames| < Stride
    ensures ScanLines(targets, frames, start, sim) == []
    decreases |frames|
  {
    if |frames| > 0 {
      var n := |frames|;
      ScanLinesNone(targets, frames[..n - 1], start, sim);
      assert start + n == Stride * (start / Stride) + (start % Stride + n);
      assert (start + n) % Stride == start % Stride + n;
    }
  }
}
