/** Confirming a residual on one source frame: OCR of a crop around it, projection to the frame, and the choice of a box. */
module SourceMatching {
  import opened Prelude
  import opened Text
  import opened Geometry
  import opened SourceScan
  import opened ResidualEvidence
  import opened Clustering

  /** A box the recognizer reports. */
  datatype OcrBox = OcrBox(text: string, confidence: real, box: Box)

  /** A decoded frame, and what the recognizer reports in the crop taken from it. */
  datatype Image = Image(width: int, height: int, boxes: seq<OcrBox>)

  /** What is looked for: a signature at a place; with a correction also the text that was read before it. */
  datatype Target = Target(signature: string, anchor: Rect, encodedText: string)

  datatype CorrectionError = InvalidCorrection(observed: string)

  function Observed(cluster: Cluster): string
    requires cluster.detections != []
  {
    Strip(Representative(cluster).text)
  }

  /** A correction replaces the signature looked for, and keeps what was read. */
  function TargetOf(script: Script, cluster: Cluster, correction: string): Result<Target, CorrectionError>
    requires cluster.detections != []
  {
    var corrected := Strip(correction);
    var signature := script.signature(corrected);
    if corrected == "" then Ok(Target(cluster.signature, cluster.anchor, ""))
    else if signature == "" || !script.containsCjk(signature) then Err(InvalidCorrection(Observed(cluster)))
    else Ok(Target(signature, cluster.anchor, Observed(cluster)))
  }

  predicate At(target: Target, b: OcrBox) {
    RectOf(b.box).Ok? && Overlap(target.anchor, Corners(b.box)) >= 0.50
  }

  /** The same signature at the same place. */
  predicate Exact(script: Script, target: Target, b: OcrBox) {
    && script.signature(Strip(b.text)) == target.signature && script.containsCjk(Strip(b.text))
    && At(target, b) && b.confidence >= 0.25
  }

  function Likeness(script: Script, ratio: (string, string) -> real, target: Target, b: OcrBox): real {
    ratio(script.signature(target.encodedText), script.signature(Strip(b.text)))
  }

  /** The text read before the correction, at the same place; tried only when no box is exact. */
  predicate Similar(script: Script, ratio: (string, string) -> real, target: Target, b: OcrBox) {
    && script.signature(target.encodedText) != ""
    && script.containsCjk(script.signature(Strip(b.text)))
    && b.confidence >= 0.50 && Likeness(script, ratio, target, b) >= 0.75
    && At(target, b)
  }

  function ExactScore(target: Target, b: OcrBox): real { Overlap(target.anchor, Corners(b.box)) + b.confidence }

  function SimilarScore(script: Script, ratio: (string, string) -> real, target: Target, b: OcrBox): real {
    Likeness(script, ratio, target, b) + Overlap(target.anchor, Corners(b.box)) + b.confidence
  }

  /** The first of the good elements of greatest score. */
  function FirstBest<T>(s: seq<T>, good: T -> bool, score: T -> real): (r: Option<nat>)
    ensures r.None? <==> forall i :: 0 <= i < |s| ==> !good(s[i])
    ensures r.Some? ==> r.value < |s| && IsFirstBest(s, good, score, r.value)
  {
    if s == [] then None
    else
      var n := |s| - 1;
      var best := FirstBest(s[..n], good, score);
      if good(s[n]) && (best.None? || score(s[n]) > score(s[best.value])) then Some(n) else best
  }

  ghost predicate IsFirstBest<T>(s: seq<T>, good: T -> bool, score: T -> real, k: nat)
    requires k < |s|
  {
    && good(s[k])
    && (forall i :: 0 <= i < |s| && good(s[i]) ==> score(s[i]) <= score(s[k]))
    && (forall i :: 0 <= i < k && good(s[i]) ==> score(s[i]) < score(s[k]))
  }

  method FindBest<T>(s: seq<T>, good: T -> bool, score: T -> real) returns (best: Option<nat>)
    ensures best == FirstBest(s, good, score)
  {
    best := None;
    var i := 0;
    while i < |s|
      invariant 0 <= i <= |s|
      invariant best == FirstBest(s[..i], good, score)
    {
      assert s[..i + 1][..i] == s[..i];
      if good(s[i]) && (best.None? || score(s[i]) > score(s[best.value])) {
        best := Some(i);
      }
      i := i + 1;
    }
    assert s[..i] == s;
  }

  function Chosen(script: Script, ratio: (string, string) -> real, target: Target, boxes: seq<OcrBox>): (r: Option<nat>)
    ensures r.Some? ==> r.value < |boxes|
  {
    var exact := FirstBest(boxes, (b: OcrBox) => Exact(script, target, b), (b: OcrBox) => ExactScore(target, b));
    if exact.Some? then exact
    else FirstBest(boxes, (b: OcrBox) => Similar(script, ratio, target, b), (b: OcrBox) => SimilarScore(script, ratio, target, b))
  }

  method MatchSourceBox(script: Script, ratio: (string, string) -> real, target: Target, boxes: seq<OcrBox>) returns (r: Option<nat>)
    ensures r == Chosen(script, ratio, target, boxes)
  {
    hide Exact, Similar, ExactScore, SimilarScore;
    r := FindBest(boxes, (b: OcrBox) => Exact(script, target, b), (b: OcrBox) => ExactScore(target, b));
    if r.None? && script.signature(target.encodedText) != "" {
      r := FindBest(boxes, (b: OcrBox) => Similar(script, ratio, target, b), (b: OcrBox) => SimilarScore(script, ratio, target, b));
    } else if r.None? {
      NothingIsSimilar(script, ratio, target, boxes);
    }
  }

  lemma NothingIsSimilar(script: Script, ratio: (string, string) -> real, target: Target, boxes: seq<OcrBox>)
    requires script.signature(target.encodedText) == ""
    ensures FirstBest(boxes, (b: OcrBox) => Similar(script, ratio, target, b), (b: OcrBox) => SimilarScore(script, ratio, target, b)) == None
  {
  }

  // ----- One frame -----

  /** The boxes found in the crop, in coordinates of the frame. */
  function Projected(boxes: seq<OcrBox>, c: Crop, width: int, height: int): (r: seq<OcrBox>)
    requires width > 0 && height > 0
    ensures |r| == |boxes|
    ensures forall i :: 0 <= i < |r| ==> r[i] == boxes[i].(box := Project(boxes[i].box, c, width, height))
  {
    Map(boxes, (b: OcrBox) => b.(box := Project(b.box, c, width, height)))
  }

  function MatchIn(script: Script, ratio: (string, string) -> real, target: Target, image: Image, frame: int): Option<Match> {
    if image.width < 1 || image.height < 1 then None
    else
      var c := CropOf(target.anchor, image.width, image.height);
      var boxes := Projected(image.boxes, c, image.width, image.height);
      var chosen := Chosen(script, ratio, target, boxes);
      if EmptyCrop(c) || chosen.None? then None
      else
        var b := boxes[chosen.value];
        Some(Match(frame, Strip(b.text), b.confidence, b.box))
  }

  method MatchSourceClusterCrop(script: Script, ratio: (string, string) -> real, target: Target, image: Image, frame: int)
    returns (r: Option<Match>)
    ensures r == MatchIn(script, ratio, target, image, frame)
  {
    hide CropOf, Chosen, EmptyCrop, Project;
    if image.width < 1 || image.height < 1 {
      return None;
    }
    var c := CropOf(target.anchor, image.width, image.height);
    if EmptyCrop(c) {
      return None;
    }
    var boxes := Projected(image.boxes, c, image.width, image.height);
    var chosen := MatchSourceBox(script, ratio, target, boxes);
    if chosen.None? {
      return None;
    }
    r := Some(Match(frame, Strip(boxes[chosen.value].text), boxes[chosen.value].confidence, boxes[chosen.value].box));
  }

  /** Whatever the recognizer reports, a match carries its frame, a valid box and half of the smaller area with the residual. */
  lemma MatchIsSound(script: Script, ratio: (string, string) -> real, target: Target, image: Image, frame: int)
    ensures var m := MatchIn(script, ratio, target, image, frame);
      m.Some? ==> SoundMatch(m.value, frame) && Overlap(target.anchor, Corners(m.value.geometry)) >= 0.50
  {
    hide CropOf, Project, Overlap;
  }

  /** What is reported in the crop of a frame, as it reaches the choice. */
  function Candidates(target: Target, image: Image): seq<OcrBox> {
    if image.width < 1 || image.height < 1 then []
    else Projected(image.boxes, CropOf(target.anchor, image.width, image.height), image.width, image.height)
  }

  /** The best exact box, or without an exact one the best similar one. */
  ghost predicate BestChoice(script: Script, ratio: (string, string) -> real, target: Target, boxes: seq<OcrBox>, k: nat)
    requires k < |boxes|
  {
    if exists b :: b in boxes && Exact(script, target, b) then
      IsFirstBest(boxes, (b: OcrBox) => Exact(script, target, b), (b: OcrBox) => ExactScore(target, b), k)
    else
      IsFirstBest(boxes, (b: OcrBox) => Similar(script, ratio, target, b), (b: OcrBox) => SimilarScore(script, ratio, target, b), k)
  }

  /** Around a usable anchor a frame matches exactly when some box of its crop is exact or similar, and then in the best choice. */
  lemma WhenFrameMatches(script: Script, ratio: (string, string) -> real, target: Target, anchor: Box, image: Image, frame: int)
    requires ValidBox(anchor) && target.anchor == Corners(anchor)
    ensures var boxes, m := Candidates(target, image), MatchIn(script, ratio, target, image, frame);
      && (m.Some? <==> exists b :: b in boxes && (Exact(script, target, b) || Similar(script, ratio, target, b)))
      && (m.Some? ==> exists k :: 0 <= k < |boxes| && BestChoice(script, ratio, target, boxes, k)
                                && m.value == Match(frame, Strip(boxes[k].text), boxes[k].confidence, boxes[k].box))
  {
    if image.width >= 1 && image.height >= 1 {
      CropNeverEmpty(anchor, image.width, image.height);
      hide CropOf, EmptyCrop, Projected, Exact, Similar, ExactScore, SimilarScore, Strip;
      var boxes := Candidates(target, image);
      ChosenIs(script, ratio, target, boxes);
    }
  }

  lemma ChosenIs(script: Script, ratio: (string, string) -> real, target: Target, boxes: seq<OcrBox>)
    ensures var k := Chosen(script, ratio, target, boxes);
      && (k.Some? <==> exists b :: b in boxes && (Exact(script, target, b) || Similar(script, ratio, target, b)))
      && (k.Some? ==> BestChoice(script, ratio, target, boxes, k.value))
  {
    hide Exact, Similar, ExactScore, SimilarScore, FirstBest;
    assert forall i :: 0 <= i < |boxes| ==> boxes[i] in boxes;
  }

  /** A box that is valid in the crop is never discarded for its geometry; only its overlap with the residual counts. */
  lemma CropBoxIsJudgedByOverlap(target: Target, anchor: Box, image: Image, i: nat)
    requires ValidBox(anchor) && target.anchor == Corners(anchor) && image.width >= 1 && image.height >= 1
    requires i < |image.boxes| && ValidBox(image.boxes[i].box)
    ensures var b := Candidates(target, image)[i];
      At(target, b) <==> Overlap(target.anchor, Corners(b.box)) >= 0.50
  {
    CropNeverEmpty(anchor, image.width, image.height);
    ProjectionStaysValid(image.boxes[i].box, CropOf(target.anchor, image.width, image.height), image.width, image.height);
    hide CropOf, Project, Overlap;
  }

  /** For a residual whose place is itself seen in the crop, the overlap can be read in crop coordinates. */
  lemma CropReadsTheSameOverlap(target: Target, anchor: Box, image: Image, i: nat, seen: Box)
    requires ValidBox(anchor) && target.anchor == Corners(anchor) && image.width >= 1 && image.height >= 1
    requires i < |image.boxes| && ValidBox(image.boxes[i].box)
    requires anchor == Project(seen, CropOf(target.anchor, image.width, image.height), image.width, image.height)
    ensures At(target, Candidates(target, image)[i]) <==> Overlap(Corners(seen), Corners(image.boxes[i].box)) >= 0.50
  {
    CropBoxIsJudgedByOverlap(target, anchor, image, i);
    CropNeverEmpty(anchor, image.width, image.height);
    ProjectionKeepsOverlap(seen, image.boxes[i].box, CropOf(target.anchor, image.width, image.height), image.width, image.height);
    hide CropOf, Project, Overlap;
  }
}
