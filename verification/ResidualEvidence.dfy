/** Evidence about one residual: its detections, the encoded and preflight authorities, and the dominant Phase-1 window. */
module ResidualEvidence {
  import opened Prelude
  import opened Geometry
  import opened Median
  import opened FrameScan
  import opened SourceScan

  /** OCR agreement found on a neighbouring frame of the rendered output. */
  datatype Confirmation = Confirmation(onAdjacentFrame: bool, frame: Option<int>, text: string, confidence: real, geometry: RawGeometry)

  datatype Detection = Detection(frame: int, text: string, confidence: real, geometry: RawGeometry, confirmation: Confirmation)

  /** The temporal object shown to the operator; its frame fields may be missing. */
  datatype ReviewObject = ReviewObject(geometry: Option<RawGeometry>, startFrame: Option<int>, endFrame: Option<int>)

  datatype Cluster = Cluster(signature: string, anchor: Rect, detections: seq<Detection>, review: ReviewObject)

  function Abs(x: int): int { if x < 0 then -x else x }

  /** Index of the first detection of greatest confidence. */
  function MostConfident(detections: seq<Detection>): (i: nat)
    requires detections != []
    ensures i < |detections|
    ensures forall k :: 0 <= k < |detections| ==> detections[k].confidence <= detections[i].confidence
    ensures forall k :: 0 <= k < i ==> detections[k].confidence < detections[i].confidence
  {
    if |detections| == 1 then 0
    else
      var i := MostConfident(detections[..|detections| - 1]);
      if detections[|detections| - 1].confidence > detections[i].confidence then |detections| - 1 else i
  }

  function Representative(cluster: Cluster): Detection
    requires cluster.detections != []
  {
    cluster.detections[MostConfident(cluster.detections)]
  }

  // ----- Encoded output -----

  datatype EncodedAuthority = EncodedAuthority(start: int, end: int, hitFrames: seq<int>, geometry: Box, dense: bool)

  /** Adjacent-frame confirmation naming a frame exactly one away. */
  predicate Confirmed(d: Detection) {
    && d.confirmation.onAdjacentFrame
    && d.confirmation.frame.Some?
    && Abs(d.confirmation.frame.value - d.frame) == 1
  }

  function ObservedFrames(detections: seq<Detection>, frameCount: int): seq<int> {
    if detections == [] then []
    else
      var d := detections[|detections| - 1];
      ObservedFrames(detections[..|detections| - 1], frameCount) + (if InVideo(d.frame, frameCount) then [d.frame] else [])
  }

  predicate ConfirmedInVideo(d: Detection, frameCount: int) {
    Confirmed(d) && InVideo(d.confirmation.frame.value, frameCount)
  }

  function NeighbourFrames(detections: seq<Detection>, frameCount: int): seq<int> {
    if detections == [] then []
    else
      var d := detections[|detections| - 1];
      NeighbourFrames(detections[..|detections| - 1], frameCount)
      + (if ConfirmedInVideo(d, frameCount) then [d.confirmation.frame.value] else [])
  }

  function EvidenceFrames(detections: seq<Detection>, frameCount: int): seq<int> {
    SortedDistinct(ObservedFrames(detections, frameCount) + NeighbourFrames(detections, frameCount))
  }

  function ConfirmedCount(detections: seq<Detection>): nat {
    if detections == [] then 0
    else ConfirmedCount(detections[..|detections| - 1]) + (if Confirmed(detections[|detections| - 1]) then 1 else 0)
  }

  /** A detection whose rectangle is readable and stays close to the anchor. */
  predicate StableDetection(d: Detection, anchor: Rect) {
    && ReadRect(d.geometry).Ok?
    && Overlap(anchor, ReadRect(d.geometry).value) >= 0.75
    && AreaSimilarity(anchor, ReadRect(d.geometry).value) >= 0.50
  }

  function BoxesOf(detections: seq<Detection>, anchor: Rect): (boxes: seq<Box>)
    requires forall i :: 0 <= i < |detections| ==> StableDetection(detections[i], anchor)
    ensures |boxes| == |detections|
  {
    if detections == [] then []
    else
      assert StableDetection(detections[|detections| - 1], anchor);
      BoxesOf(detections[..|detections| - 1], anchor) + [ReadBox(detections[|detections| - 1].geometry).value]
  }

  function Ratio(n: nat, d: nat): real { n as real / Max(1, d) as real }

  function MaxGap(frames: seq<int>): int {
    if |frames| < 2 then 0 else MaxSampleGap(frames) - 1
  }

  function AnchorOf(cluster: Cluster): Result<Rect, GeometryError>
    requires cluster.detections != []
  {
    ReadRect(if cluster.review.geometry.Some? then cluster.review.geometry.value else cluster.detections[0].geometry)
  }

  predicate DenseTrack(frames: seq<int>, confirmed: nat, detections: nat)
    requires frames != []
  {
    && |frames| >= 3
    && Ratio(|frames|, Max(0, Last(frames) - frames[0] + 1)) >= 0.45
    && MaxGap(frames) <= 6
    && Ratio(confirmed, detections) >= 0.80
  }

  predicate ShortFlash(frames: seq<int>, confirmed: nat)
    requires frames != []
  {
    Last(frames) - frames[0] + 1 <= 12 && confirmed >= 1
  }

  /** The window of an accepted track: the reviewed range when it is dense, the padded observations otherwise. */
  function AuthorityWindow(review: ReviewObject, frames: seq<int>, dense: bool, frameCount: int): (int, int)
    requires frames != []
  {
    if dense then
      (if review.startFrame.Some? then review.startFrame.value else frames[0],
       if review.endFrame.Some? then review.endFrame.value else Last(frames))
    else (Max(0, frames[0] - 1), Min(frameCount - 1, Last(frames) + 1))
  }

  function EncodedAuthorityOf(cluster: Cluster, frameCount: int): Option<EncodedAuthority> {
    var detections := cluster.detections;
    if detections == [] || frameCount < 1 || AnchorOf(cluster).Err? then None
    else
      var anchor := AnchorOf(cluster).value;
      var frames := EvidenceFrames(detections, frameCount);
      if |frames| < 2 || exists i :: 0 <= i < |detections| && !StableDetection(detections[i], anchor) then None
      else
        var confirmed := ConfirmedCount(detections);
        var dense := DenseTrack(frames, confirmed, |detections|);
        if !ShortFlash(frames, confirmed) && !dense then None
        else
          var (start, end) := AuthorityWindow(cluster.review, frames, dense, frameCount);
          Some(EncodedAuthority(start, end, frames, MedianBox(BoxesOf(detections, anchor)), dense))
  }

  method EncodedTemporalGeometryAuthority(cluster: Cluster, frameCount: int) returns (r: Option<EncodedAuthority>)
    ensures r == EncodedAuthorityOf(cluster, frameCount)
  {
    hide StableDetection, DenseTrack, ShortFlash, AuthorityWindow, MedianBox, AnchorOf, ConfirmedCount, BoxesOf;
    var detections := cluster.detections;
    if detections == [] || frameCount < 1 || AnchorOf(cluster).Err? {
      return None;
    }
    var anchor := AnchorOf(cluster).value;
    var frames := CollectFrames(detections, frameCount);
    if |frames| < 2 {
      return None;
    }
    var stable, confirmed, boxes := CheckStability(detections, anchor);
    if !stable {
      return None;
    }
    var dense := DenseTrack(frames, confirmed, |detections|);
    if !ShortFlash(frames, confirmed) && !dense {
      return None;
    }
    var (start, end) := AuthorityWindow(cluster.review, frames, dense, frameCount);
    r := Some(EncodedAuthority(start, end, frames, MedianBox(boxes), dense));
  }

  method CollectFrames(detections: seq<Detection>, frameCount: int) returns (frames: seq<int>)
    ensures frames == EvidenceFrames(detections, frameCount)
  {
    hide SortedDistinct;
    var observed: seq<int>, neighbours: seq<int> := [], [];
    var i := 0;
    while i < |detections|
      invariant 0 <= i <= |detections|
      invariant observed == ObservedFrames(detections[..i], frameCount)
      invariant neighbours == NeighbourFrames(detections[..i], frameCount)
    {
      var d := detections[i];
      assert detections[..i + 1][..i] == detections[..i];
      if InVideo(d.frame, frameCount) {
        observed := observed + [d.frame];
      }
      if ConfirmedInVideo(d, frameCount) {
        neighbours := neighbours + [d.confirmation.frame.value];
      }
      i := i + 1;
    }
    assert detections[..i] == detections;
    frames := SortedDistinct(observed + neighbours);
  }

  method CheckStability(detections: seq<Detection>, anchor: Rect) returns (stable: bool, confirmed: nat, boxes: seq<Box>)
    ensures stable <==> forall i :: 0 <= i < |detections| ==> StableDetection(detections[i], anchor)
    ensures stable ==> confirmed == ConfirmedCount(detections) && boxes == BoxesOf(detections, anchor)
  {
    hide Overlap, AreaSimilarity;
    confirmed, boxes := 0, [];
    var i := 0;
    while i < |detections|
      invariant 0 <= i <= |detections|
      invariant forall k :: 0 <= k < i ==> StableDetection(detections[k], anchor)
      invariant confirmed == ConfirmedCount(detections[..i])
      invariant boxes == BoxesOf(detections[..i], anchor)
    {
      var d := detections[i];
      assert detections[..i + 1][..i] == detections[..i];
      if !StableDetection(d, anchor) {
        return false, confirmed, boxes;
      }
      boxes := boxes + [ReadBox(d.geometry).value];
      if Confirmed(d) {
        confirmed := confirmed + 1;
      }
      i := i + 1;
    }
    assert detections[..i] == detections;
    stable := true;
  }

  lemma {:induction false} FramesInVideo(detections: seq<Detection>, frameCount: int)
    ensures forall f :: f in ObservedFrames(detections, frameCount) ==> InVideo(f, frameCount)
    ensures forall f :: f in NeighbourFrames(detections, frameCount) ==> InVideo(f, frameCount)
  {
    if detections != [] {
      FramesInVideo(detections[..|detections| - 1], frameCount);
    }
  }

  lemma {:induction false} ObservedHas(detections: seq<Detection>, frameCount: int, i: nat)
    requires i < |detections| && InVideo(detections[i].frame, frameCount)
    ensures detections[i].frame in ObservedFrames(detections, frameCount)
  {
    if i < |detections| - 1 {
      ObservedHas(detections[..|detections| - 1], frameCount, i);
    }
  }

  lemma {:induction false} BoxesAreValid(detections: seq<Detection>, anchor: Rect)
    requires forall i :: 0 <= i < |detections| ==> StableDetection(detections[i], anchor)
    ensures forall b :: b in BoxesOf(detections, anchor) ==> ValidBox(b)
  {
    if detections != [] {
      assert StableDetection(detections[|detections| - 1], anchor);
      BoxesAreValid(detections[..|detections| - 1], anchor);
    }
  }

  /** How the window of an accepted authority follows from its frames and the reviewed range. */
  lemma AuthorityParts(cluster: Cluster, frameCount: int)
    requires EncodedAuthorityOf(cluster, frameCount).Some?
    ensures var a := EncodedAuthorityOf(cluster, frameCount).value;
      && a.hitFrames == EvidenceFrames(cluster.detections, frameCount) && a.hitFrames != []
      && (a.start, a.end) == AuthorityWindow(cluster.review, a.hitFrames, a.dense, frameCount)
  {
    hide StableDetection, DenseTrack, ShortFlash, MedianBox, AnchorOf, EvidenceFrames, AuthorityWindow;
  }

  /** An accepted authority spans at least two frames of the video, all of its observations, and has a valid geometry. */
  lemma AuthorityShape(cluster: Cluster, frameCount: int)
    requires EncodedAuthorityOf(cluster, frameCount).Some?
    ensures var a := EncodedAuthorityOf(cluster, frameCount).value;
      && StrictlyAscending(a.hitFrames) && |a.hitFrames| >= 2
      && (forall f :: f in a.hitFrames ==> InVideo(f, frameCount))
      && (forall i :: 0 <= i < |cluster.detections| && InVideo(cluster.detections[i].frame, frameCount)
            ==> cluster.detections[i].frame in a.hitFrames)
      && ValidBox(a.geometry)
    ensures cluster.detections != []
  {
    var detections := cluster.detections;
    var anchor := AnchorOf(cluster).value;
    var all := ObservedFrames(detections, frameCount) + NeighbourFrames(detections, frameCount);
    SortedDistinctIs(all);
    FramesInVideo(detections, frameCount);
    forall i | 0 <= i < |detections| && InVideo(detections[i].frame, frameCount)
      ensures detections[i].frame in all
    {
      ObservedHas(detections, frameCount, i);
    }
    BoxesAreValid(detections, anchor);
    MedianBoxIsValid(BoxesOf(detections, anchor));
  }

  // ----- Preflight -----

  datatype SourceRow = SourceRow(frame: int, text: string, confidence: real, geometry: RawGeometry)

  datatype Preflight = Preflight(currentPolicy: bool, complete: bool, error: bool, sourceRows: seq<SourceRow>)

  /** Text, box and area agree well enough with the anchor detection. */
  predicate Agrees(similar: (string, string) -> real, anchorText: string, anchor: Rect, text: string, geometry: RawGeometry) {
    && ReadRect(geometry).Ok?
    && similar(anchorText, text) >= 0.50
    && Overlap(anchor, ReadRect(geometry).value) >= 0.50
    && AreaSimilarity(anchor, ReadRect(geometry).value) >= 0.25
  }

  predicate Qualifies(similar: (string, string) -> real, d: Detection, anchor: Rect, row: SourceRow) {
    row.frame == d.frame && row.confidence >= 0.25 && Agrees(similar, d.text, anchor, row.text, row.geometry)
  }

  /** The sum the code maximizes, for rows whose rectangle is readable. */
  function Score(similar: (string, string) -> real, d: Detection, anchor: Rect, row: SourceRow): real
    requires ReadRect(row.geometry).Ok?
  {
    var rect := ReadRect(row.geometry).value;
    similar(d.text, row.text) + Overlap(anchor, rect) + AreaSimilarity(anchor, rect) + row.confidence
  }

  /** `k` is the first of the qualifying rows of greatest score. */
  ghost predicate BestSource(similar: (string, string) -> real, d: Detection, anchor: Rect, rows: seq<SourceRow>, k: int) {
    && 0 <= k < |rows| && Qualifies(similar, d, anchor, rows[k])
    && (forall j :: 0 <= j < |rows| && Qualifies(similar, d, anchor, rows[j])
          ==> Score(similar, d, anchor, rows[j]) <= Score(similar, d, anchor, rows[k]))
    && (forall j :: 0 <= j < k && Qualifies(similar, d, anchor, rows[j])
          ==> Score(similar, d, anchor, rows[j]) < Score(similar, d, anchor, rows[k]))
  }

  /** The evidence that lets a missed re-probe reuse earlier source-bound OCR. */
  ghost predicate PreflightBinds(preflight: Preflight, similar: (string, string) -> real, cluster: Cluster, frameCount: int) {
    && preflight.currentPolicy && preflight.complete && !preflight.error
    && cluster.detections != []
    && var d := Representative(cluster);
    && InVideo(d.frame, frameCount)
    && ReadRect(d.geometry).Ok?
    && (exists k :: BestSource(similar, d, ReadRect(d.geometry).value, preflight.sourceRows, k))
    && Confirmed(d) && InVideo(d.confirmation.frame.value, frameCount)
    && Agrees(similar, d.text, ReadRect(d.geometry).value, d.confirmation.text, d.confirmation.geometry)
  }

  function SourceMatch(row: SourceRow): Match
    requires ReadBox(row.geometry).Some?
  {
    Match(row.frame, row.text, row.confidence, ReadBox(row.geometry).value)
  }

  /** Nothing, or the best source row of the anchor frame followed by its adjacent-frame confirmation. */
  method PreflightSourceBoundTemporalMatches(preflight: Preflight, similar: (string, string) -> real, cluster: Cluster, frameCount: int)
    returns (r: seq<Match>)
    ensures r != [] <==> PreflightBinds(preflight, similar, cluster, frameCount)
    ensures r != [] ==>
      var d := Representative(cluster);
      && |r| == 2
      && (exists k :: BestSource(similar, d, ReadRect(d.geometry).value, preflight.sourceRows, k)
                      && r[0] == SourceMatch(preflight.sourceRows[k]))
      && r[1] == Match(d.confirmation.frame.value, d.confirmation.text, d.confirmation.confidence,
                       ReadBox(d.confirmation.geometry).value)
  {
    hide Overlap, AreaSimilarity;
    if !preflight.currentPolicy || !preflight.complete || preflight.error || cluster.detections == [] {
      return [];
    }
    var d := Representative(cluster);
    if !InVideo(d.frame, frameCount) || ReadRect(d.geometry).Err? {
      return [];
    }
    var anchor := ReadRect(d.geometry).value;
    var best := BestSourceRow(similar, d, anchor, preflight.sourceRows);
    if best == -1 || !Confirmed(d) || !InVideo(d.confirmation.frame.value, frameCount)
       || !Agrees(similar, d.text, anchor, d.confirmation.text, d.confirmation.geometry) {
      return [];
    }
    r := [SourceMatch(preflight.sourceRows[best]),
          Match(d.confirmation.frame.value, d.confirmation.text, d.confirmation.confidence, ReadBox(d.confirmation.geometry).value)];
  }

  method BestSourceRow(similar: (string, string) -> real, d: Detection, anchor: Rect, rows: seq<SourceRow>) returns (best: int)
    ensures best == -1 ==> forall k :: !BestSource(similar, d, anchor, rows, k)
    ensures best != -1 ==> BestSource(similar, d, anchor, rows, best)
  {
    hide Overlap, AreaSimilarity;
    best := -1;
    var i := 0;
    while i < |rows|
      invariant 0 <= i <= |rows|
      invariant best == -1 ==> forall j :: 0 <= j < i ==> !Qualifies(similar, d, anchor, rows[j])
      invariant best != -1 ==> BestSource(similar, d, anchor, rows[..i], best)
    {
      assert forall j :: 0 <= j < i ==> rows[..i + 1][j] == rows[..i][j];
      if Qualifies(similar, d, anchor, rows[i])
         && (best == -1 || Score(similar, d, anchor, rows[i]) > Score(similar, d, anchor, rows[best])) {
        best := i;
      }
      i := i + 1;
    }
    assert rows[..i] == rows;
  }

  // ----- Phase-1 timeline -----

  /** A Phase-1 row with its pixel box, of which more than the four coordinates may be stored, or fewer. */
  datatype TimelineRow = TimelineRow(textId: string, start: Option<int>, end: Option<int>, coords: seq<real>)

  datatype TimelineError = NoActiveWindow | AmbiguousTemporalWindow

  datatype ActiveWindow = ActiveWindow(start: int, end: int, support: nat, active: nat)

  /** An absent end never covers a frame of the video, while an end of zero is kept. */
  predicate Covers(row: TimelineRow, f: int) {
    OrDefault(row.start, 0) <= f <= (if row.end.None? then -1 else row.end.value)
  }

  function WindowsAt(timeline: seq<TimelineRow>, f: int): seq<(int, int)> {
    if timeline == [] then []
    else (if Covers(timeline[0], f) then [(OrDefault(timeline[0].start, 0), OrDefault(timeline[0].end, 0))] else [])
         + WindowsAt(timeline[1..], f)
  }

  function CountOf<T(==)>(s: seq<T>, x: T): nat {
    if s == [] then 0 else (if s[0] == x then 1 else 0) + CountOf(s[1..], x)
  }

  /** The first element of greatest multiplicity. */
  function MostCommon<T(==)>(s: seq<T>, upTo: nat): (best: nat)
    requires 0 < upTo <= |s|
    ensures best < upTo
    ensures forall i :: 0 <= i < upTo ==> CountOf(s, s[i]) <= CountOf(s, s[best])
    ensures forall i :: 0 <= i < best ==> CountOf(s, s[i]) < CountOf(s, s[best])
  {
    if upTo == 1 then 0
    else
      var best := MostCommon(s, upTo - 1);
      if CountOf(s, s[upTo - 1]) > CountOf(s, s[best]) then upTo - 1 else best
  }

  function DominantActiveWindow(timeline: seq<TimelineRow>, f: int): Result<ActiveWindow, TimelineError> {
    var windows := WindowsAt(timeline, f);
    if windows == [] then Err(NoActiveWindow)
    else
      var (start, end) := windows[MostCommon(windows, |windows|)];
      var support := CountOf(windows, (start, end));
      if Ratio(support, |windows|) < 0.50 then Err(AmbiguousTemporalWindow)
      else Ok(ActiveWindow(start, end, support, |windows|))
  }

  lemma {:induction false} WindowsCover(timeline: seq<TimelineRow>, f: int)
    requires f >= 0
    ensures forall w :: w in WindowsAt(timeline, f) ==> w.0 <= f <= w.1
  {
    if timeline != [] {
      WindowsCover(timeline[1..], f);
    }
  }

  lemma HalfRatio(n: nat, d: nat)
    requires d > 0
    ensures Ratio(n, d) >= 0.50 <==> 2 * n >= d
  {
    var q := n as real / d as real;
    assert q * d as real == n as real;
    if q >= 0.5 {
      assert q * d as real >= 0.5 * d as real;
    } else {
      assert q * d as real < 0.5 * d as real;
    }
  }

  /** A chosen window contains the frame and is shared by at least half of the active rows; a majority window is chosen. */
  lemma DominantWindowIsSupported(timeline: seq<TimelineRow>, f: int)
    requires f >= 0
    ensures var r := DominantActiveWindow(timeline, f);
      var windows := WindowsAt(timeline, f);
      && (r.Ok? ==> r.value.start <= f <= r.value.end)
      && (r.Ok? ==> 2 * CountOf(windows, (r.value.start, r.value.end)) >= |windows|)
      && (forall w :: w in windows && 2 * CountOf(windows, w) > |windows| ==> r.Ok? && (r.value.start, r.value.end) == w)
  {
    var windows := WindowsAt(timeline, f);
    if windows != [] {
      WindowsCover(timeline, f);
      var best := windows[MostCommon(windows, |windows|)];
      HalfRatio(CountOf(windows, best), |windows|);
      forall w | w in windows && 2 * CountOf(windows, w) > |windows|
        ensures w == best
      {
        var i :| 0 <= i < |windows| && windows[i] == w;
        assert CountOf(windows, windows[i]) <= CountOf(windows, best);
        if w != best {
          CountsDisjoint(windows, w, best);
        }
      }
    }
  }

  lemma {:induction false} CountsDisjoint<T>(s: seq<T>, x: T, y: T)
    requires x != y
    ensures CountOf(s, x) + CountOf(s, y) <= |s|
  {
    if s != [] {
      CountsDisjoint(s[1..], x, y);
    }
  }
}
