/** When the encoded output alone gives an occurrence its track, in numbers of frames and detections. */
module TrackRules {
  import opened Prelude
  import opened Geometry
  import opened Median
  import opened FrameScan
  import opened SourceScan
  import opened ResidualEvidence
  import opened WindowDecision
  import opened WindowRules

  /** Confirmed on the frame before or the frame after. */
  predicate NextTo(d: Detection) {
    d.confirmation.onAdjacentFrame && (d.confirmation.frame == Some(d.frame - 1) || d.confirmation.frame == Some(d.frame + 1))
  }

  lemma WhenItIsConfirmed(d: Detection)
    ensures Confirmed(d) <==> NextTo(d)
    ensures NextTo(d) ==> d.confirmation.frame.Some?
  {
  }

  /** Which detections have an adjacent-frame confirmation. */
  ghost function ConfirmedAt(detections: seq<Detection>): set<nat> { set i: nat | i < |detections| && NextTo(detections[i]) }

  lemma {:induction false} ConfirmedCountIs(detections: seq<Detection>)
    ensures ConfirmedCount(detections) == |ConfirmedAt(detections)|
  {
    hide Confirmed, NextTo;
    if detections != [] {
      var n := |detections| - 1;
      ConfirmedCountIs(detections[..n]);
      WhenItIsConfirmed(detections[n]);
      assert ConfirmedAt(detections) == if NextTo(detections[n]) then ConfirmedAt(detections[..n]) + {n} else ConfirmedAt(detections[..n]);
    } else {
      assert ConfirmedAt(detections) == {};
    }
  }

  /** A detection of the video, or the neighbouring frame of the video that confirms one. */
  ghost predicate IsEvidenceFrame(detections: seq<Detection>, frameCount: int, f: int) {
    InVideo(f, frameCount) && exists i :: 0 <= i < |detections| && Shows(detections[i], f)
  }

  predicate Shows(d: Detection, f: int) { d.frame == f || (NextTo(d) && d.confirmation.frame == Some(f)) }

  /** What one more detection adds. */
  lemma OneMoreDetection(front: seq<Detection>, last: Detection, frameCount: int, f: int)
    ensures IsEvidenceFrame(front + [last], frameCount, f) <==> IsEvidenceFrame(front, frameCount, f) || (InVideo(f, frameCount) && Shows(last, f))
  {
    hide Shows;
    var all := front + [last];
    assert forall i :: 0 <= i < |front| ==> all[i] == front[i];
    assert all[|front|] == last;
  }

  lemma ShownByDetection(d: Detection, frameCount: int, f: int)
    ensures (InVideo(d.frame, frameCount) && f == d.frame) || (ConfirmedInVideo(d, frameCount) && f == d.confirmation.frame.value) <==>
      InVideo(f, frameCount) && Shows(d, f)
  {
    WhenItIsConfirmed(d);
    hide Confirmed, NextTo;
  }

  lemma {:induction false} EvidenceFramesAre(detections: seq<Detection>, frameCount: int, f: int)
    ensures f in ObservedFrames(detections, frameCount) || f in NeighbourFrames(detections, frameCount) <==>
      IsEvidenceFrame(detections, frameCount, f)
  {
    hide IsEvidenceFrame, Shows, ConfirmedInVideo;
    if detections == [] {
      NoEvidence(frameCount, f);
    } else {
      var front, last := detections[..|detections| - 1], detections[|detections| - 1];
      assert detections == front + [last];
      EvidenceFramesAre(front, frameCount, f);
      OneMoreDetection(front, last, frameCount, f);
      ShownByDetection(last, frameCount, f);
    }
  }

  lemma NoEvidence(frameCount: int, f: int)
    ensures !IsEvidenceFrame([], frameCount, f)
  {
  }

  lemma {:induction false} GapsAreBounded(frames: seq<int>, gap: int)
    requires |frames| >= 2
    ensures MaxSampleGap(frames) <= gap <==> forall i :: 0 <= i < |frames| - 1 ==> frames[i + 1] - frames[i] <= gap
  {
    if |frames| > 2 {
      var rest := frames[1..];
      GapsAreBounded(rest, gap);
      if frames[1] - frames[0] <= gap && forall i :: 0 <= i < |rest| - 1 ==> rest[i + 1] - rest[i] <= gap {
        forall i | 0 <= i < |frames| - 1
          ensures frames[i + 1] - frames[i] <= gap
        {
          assert i > 0 ==> frames[i] == rest[i - 1] && frames[i + 1] == rest[i];
        }
      }
      if forall i :: 0 <= i < |frames| - 1 ==> frames[i + 1] - frames[i] <= gap {
        forall i | 0 <= i < |rest| - 1
          ensures rest[i + 1] - rest[i] <= gap
        {
          assert frames[(i + 1) + 1] - frames[i + 1] <= gap;
        }
      }
    }
  }

  /** At least three frames, nine twentieths of their span, no seven missing in a row, and four fifths of the detections confirmed. */
  ghost predicate DenseBy(frames: seq<int>, detections: seq<Detection>) {
    && |frames| >= 3 && 20 * |frames| >= 9 * (frames[|frames| - 1] - frames[0] + 1)
    && (forall i :: 0 <= i < |frames| - 1 ==> frames[i + 1] - frames[i] <= 7)
    && 5 * |ConfirmedAt(detections)| >= 4 * |detections|
  }

  ghost predicate ShortBy(frames: seq<int>, detections: seq<Detection>) {
    frames != [] && frames[|frames| - 1] - frames[0] + 1 <= 12 && ConfirmedAt(detections) != {}
  }

  lemma NineTwentieths(n: nat, d: nat)
    ensures Ratio(n, d) >= 0.45 <==> 20 * n >= 9 * Max(1, d)
  {
    var m := Max(1, d);
    QuotientOrder(n as real, 0.45, m as real);
    assert 20.0 * n as real >= 9.0 * m as real <==> 20 * n >= 9 * m;
  }

  lemma DenseTrackBy(frames: seq<int>, detections: seq<Detection>)
    requires frames != [] && detections != [] && StrictlyAscending(frames)
    ensures DenseTrack(frames, ConfirmedCount(detections), |detections|) <==> DenseBy(frames, detections)
    ensures ShortFlash(frames, ConfirmedCount(detections)) <==> ShortBy(frames, detections)
  {
    ConfirmedCountIs(detections);
    DenseIsRatio(ConfirmedCount(detections), |detections|);
    var span := frames[|frames| - 1] - frames[0] + 1;
    assert |frames| > 1 ==> frames[0] < frames[|frames| - 1];
    NineTwentieths(|frames|, Max(0, span));
    hide Ratio, ConfirmedCount, ConfirmedAt, MaxSampleGap, StrictlyAscending;
    if |frames| >= 2 {
      GapsAreBounded(frames, 7);
    }
  }

  // ----- Places in areas -----

  /** A usable box that shares so much of the smaller area with the anchor and is at least so much of the larger one. */
  ghost predicate Near(anchor: Rect, geometry: RawGeometry, shared: real, alike: real) {
    exists box :: ReadBox(geometry) == Some(box) && ValidBox(box) && SharesArea(anchor, Corners(box), shared, alike)
  }

  predicate SharesArea(a: Rect, b: Rect, shared: real, alike: real) {
    && Intersection(a, b) >= shared * MinReal(Area(a), Area(b))
    && MinReal(Area(a), Area(b)) >= alike * MaxReal(Area(a), Area(b))
  }

  lemma ReadHasArea(geometry: RawGeometry)
    requires ReadRect(geometry).Ok?
    ensures Area(ReadRect(geometry).value) > 0.0
  {
    var box := ReadBox(geometry).value;
    assert box.width * box.height > 0.0;
    var r := Corners(box);
    assert Extent(r.left, r.right) == box.width && Extent(r.top, r.bottom) == box.height;
  }

  lemma WhenAreasAreShared(a: Rect, b: Rect, shared: real, alike: real)
    requires Area(a) > 0.0 && Area(b) > 0.0
    ensures Overlap(a, b) >= shared && AreaSimilarity(a, b) >= alike <==> SharesArea(a, b, shared, alike)
  {
    QuotientOrder(Intersection(a, b), shared, MinReal(Area(a), Area(b)));
    QuotientOrder(MinReal(Area(a), Area(b)), alike, MaxReal(Area(a), Area(b)));
    hide Area, Intersection;
  }

  lemma WhenItIsNear(anchor: Rect, geometry: RawGeometry, shared: real, alike: real)
    requires Area(anchor) > 0.0
    ensures Near(anchor, geometry, shared, alike) <==>
      && ReadRect(geometry).Ok?
      && Overlap(anchor, ReadRect(geometry).value) >= shared && AreaSimilarity(anchor, ReadRect(geometry).value) >= alike
  {
    hide Overlap, AreaSimilarity, SharesArea, Area;
    if ReadRect(geometry).Ok? {
      ReadHasArea(geometry);
      WhenAreasAreShared(anchor, ReadRect(geometry).value, shared, alike);
    }
  }

  /** Every detection shares three quarters of the smaller area with the reviewed place, and neither is twice the other. */
  ghost predicate AllStable(detections: seq<Detection>, anchor: Rect) {
    forall i :: 0 <= i < |detections| ==> Near(anchor, detections[i].geometry, 0.75, 0.50)
  }

  lemma WhenAllAreStable(cluster: Cluster)
    requires cluster.detections != [] && AnchorOf(cluster).Ok?
    ensures AllStable(cluster.detections, AnchorOf(cluster).value) <==>
      forall i :: 0 <= i < |cluster.detections| ==> StableDetection(cluster.detections[i], AnchorOf(cluster).value)
  {
    var anchor := AnchorOf(cluster).value;
    ReadHasArea(if cluster.review.geometry.Some? then cluster.review.geometry.value else cluster.detections[0].geometry);
    hide Overlap, AreaSimilarity, Near, ReadRect, Area;
    forall i | 0 <= i < |cluster.detections|
      ensures Near(anchor, cluster.detections[i].geometry, 0.75, 0.50) <==> StableDetection(cluster.detections[i], anchor)
    {
      WhenItIsNear(anchor, cluster.detections[i].geometry, 0.75, 0.50);
    }
  }

  // ----- The track -----

  /**
   * A cluster has an encoded track exactly when its reviewed place is usable, it has at least two evidence frames, every detection is
   * stable around that place, and the frames are dense or form a short confirmed flash. A dense track takes the stored range, any
   * other its frames with one more on each side.
   */
  lemma WhenTrackIsAccepted(cluster: Cluster, frameCount: int, frames: seq<int>)
    requires cluster.detections != [] && frameCount >= 1 && StrictlyAscending(frames)
    requires forall f :: f in frames <==> IsEvidenceFrame(cluster.detections, frameCount, f)
    ensures var track := EncodedAuthorityOf(cluster, frameCount);
      var dense, review := DenseBy(frames, cluster.detections), cluster.review;
      && (track.Some? <==>
            && AnchorOf(cluster).Ok? && |frames| >= 2
            && AllStable(cluster.detections, AnchorOf(cluster).value)
            && (dense || ShortBy(frames, cluster.detections)))
      && (track.Some? ==>
            && track.value.hitFrames == frames && track.value.dense == dense
            && (dense && review.startFrame.Some? ==> track.value.start == review.startFrame.value)
            && (dense && review.startFrame.None? ==> track.value.start == frames[0])
            && (dense && review.endFrame.Some? ==> track.value.end == review.endFrame.value)
            && (dense && review.endFrame.None? ==> track.value.end == frames[|frames| - 1])
            && (!dense ==> track.value.start == Max(0, frames[0] - 1) && track.value.end == Min(frameCount - 1, frames[|frames| - 1] + 1)))
  {
    FramesAreThese(cluster.detections, frameCount, frames);
    AcceptedBy(cluster, frameCount);
    hide EncodedAuthorityOf, StableDetection, DenseTrack, ShortFlash, AnchorOf, EvidenceFrames, ConfirmedCount, StrictlyAscending, DenseBy,
         ShortBy, IsEvidenceFrame, AllStable;
    if AnchorOf(cluster).Ok? {
      WhenAllAreStable(cluster);
    }
    if frames != [] {
      DenseTrackBy(frames, cluster.detections);
    }
  }

  /** The acceptance of a track, with its two tests named. */
  lemma AcceptedBy(cluster: Cluster, frameCount: int)
    requires cluster.detections != [] && frameCount >= 1
    ensures var track, frames := EncodedAuthorityOf(cluster, frameCount), EvidenceFrames(cluster.detections, frameCount);
      var confirmed, review := ConfirmedCount(cluster.detections), cluster.review;
      && (track.Some? <==>
            && AnchorOf(cluster).Ok? && |frames| >= 2
            && (forall i :: 0 <= i < |cluster.detections| ==> StableDetection(cluster.detections[i], AnchorOf(cluster).value))
            && (DenseTrack(frames, confirmed, |cluster.detections|) || ShortFlash(frames, confirmed)))
      && (track.Some? ==>
            && track.value.hitFrames == frames && track.value.dense == DenseTrack(frames, confirmed, |cluster.detections|)
            && (track.value.dense && review.startFrame.Some? ==> track.value.start == review.startFrame.value)
            && (track.value.dense && review.startFrame.None? ==> track.value.start == frames[0])
            && (track.value.dense && review.endFrame.Some? ==> track.value.end == review.endFrame.value)
            && (track.value.dense && review.endFrame.None? ==> track.value.end == frames[|frames| - 1])
            && (!track.value.dense ==>
                  track.value.start == Max(0, frames[0] - 1) && track.value.end == Min(frameCount - 1, frames[|frames| - 1] + 1)))
  {
    hide StableDetection, DenseTrack, ShortFlash, MedianBox, AnchorOf, EvidenceFrames, BoxesOf, ConfirmedCount;
  }

  lemma FramesAreThese(detections: seq<Detection>, frameCount: int, frames: seq<int>)
    requires StrictlyAscending(frames) && forall f :: f in frames <==> IsEvidenceFrame(detections, frameCount, f)
    ensures EvidenceFrames(detections, frameCount) == frames
  {
    var all := ObservedFrames(detections, frameCount) + NeighbourFrames(detections, frameCount);
    SortedDistinctIs(all);
    hide IsEvidenceFrame, ObservedFrames, NeighbourFrames, StrictlyAscending, SortedDistinct;
    forall f
      ensures f in EvidenceFrames(detections, frameCount) <==> f in frames
    {
      EvidenceFramesAre(detections, frameCount, f);
    }
    SameMembersSameList(EvidenceFrames(detections, frameCount), frames);
  }

  /** The test for a confirmed detection changes nothing: encoded output uses every track that would be accepted, other output none. */
  lemma WhenTrackIsUsed(cluster: Cluster, encoded: bool, frameCount: int)
    ensures TrackOf(cluster, encoded, frameCount) == if encoded then EncodedAuthorityOf(cluster, frameCount) else None
  {
    var track := EncodedAuthorityOf(cluster, frameCount);
    if track.Some? {
      AcceptedHasConfirmed(cluster, frameCount);
      var i :| i in ConfirmedAt(cluster.detections);
      assert cluster.detections[i].confirmation.onAdjacentFrame;
    }
  }

  lemma AcceptedHasConfirmed(cluster: Cluster, frameCount: int)
    requires EncodedAuthorityOf(cluster, frameCount).Some?
    ensures ConfirmedAt(cluster.detections) != {}
  {
    hide StableDetection, MedianBox, AnchorOf, BoxesOf, ConfirmedCount, Confirmed, EvidenceFrames;
    ConfirmedCountIs(cluster.detections);
    if Ratio(ConfirmedCount(cluster.detections), |cluster.detections|) >= 0.80 {
      FourFifthsIsSome(ConfirmedCount(cluster.detections), |cluster.detections|);
    }
  }

  lemma FourFifthsIsSome(n: nat, d: nat)
    requires Ratio(n, d) >= 0.80
    ensures n > 0
  {
    DenseIsRatio(n, d);
  }

  // ----- Earlier source evidence -----

  /** What the best row is chosen by. */
  function SumOf(similar: (string, string) -> real, d: Detection, anchor: Rect, row: SourceRow): real
    requires ReadRect(row.geometry).Ok?
  {
    var rect := ReadRect(row.geometry).value;
    row.confidence + similar(d.text, row.text) + AreaSimilarity(anchor, rect) + Overlap(anchor, rect)
  }

  ghost predicate Vouches(similar: (string, string) -> real, d: Detection, anchor: Rect, row: SourceRow) {
    row.frame == d.frame && 4.0 * row.confidence >= 1.0 && ReadsNear(similar, d, anchor, row.text, row.geometry)
  }

  ghost predicate ReadsNear(similar: (string, string) -> real, d: Detection, anchor: Rect, text: string, geometry: RawGeometry) {
    2.0 * similar(d.text, text) >= 1.0 && Near(anchor, geometry, 0.50, 0.25)
  }

  lemma WhenItReadsNear(similar: (string, string) -> real, d: Detection, anchor: Rect, text: string, geometry: RawGeometry)
    requires Area(anchor) > 0.0
    ensures ReadsNear(similar, d, anchor, text, geometry) <==> Agrees(similar, d.text, anchor, text, geometry)
  {
    WhenItIsNear(anchor, geometry, 0.50, 0.25);
    hide Overlap, AreaSimilarity, Near, ReadRect, Area;
  }

  lemma WhenItVouches(similar: (string, string) -> real, d: Detection, anchor: Rect, row: SourceRow)
    requires Area(anchor) > 0.0
    ensures Vouches(similar, d, anchor, row) <==> Qualifies(similar, d, anchor, row)
    ensures Vouches(similar, d, anchor, row) ==>
      ReadRect(row.geometry).Ok? && SumOf(similar, d, anchor, row) == Score(similar, d, anchor, row)
  {
    WhenItReadsNear(similar, d, anchor, row.text, row.geometry);
    hide Overlap, AreaSimilarity, ReadsNear, ReadRect, Area;
  }

  /** Of the rows that vouch, the first of the largest sum of confidence, likeness and both shares. */
  ghost predicate BestVoucher(similar: (string, string) -> real, d: Detection, anchor: Rect, rows: seq<SourceRow>, k: int) {
    && 0 <= k < |rows| && Vouches(similar, d, anchor, rows[k]) && ReadRect(rows[k].geometry).Ok?
    && forall j :: 0 <= j < |rows| && j != k && Vouches(similar, d, anchor, rows[j]) ==>
         && ReadRect(rows[j].geometry).Ok?
         && SumOf(similar, d, anchor, rows[j]) <= SumOf(similar, d, anchor, rows[k])
         && (j < k ==> SumOf(similar, d, anchor, rows[j]) < SumOf(similar, d, anchor, rows[k]))
  }

  lemma WhenRowIsBest(similar: (string, string) -> real, d: Detection, anchor: Rect, rows: seq<SourceRow>, k: int)
    requires Area(anchor) > 0.0
    ensures BestSource(similar, d, anchor, rows, k) <==> BestVoucher(similar, d, anchor, rows, k)
  {
    forall j | 0 <= j < |rows|
      ensures Vouches(similar, d, anchor, rows[j]) <==> Qualifies(similar, d, anchor, rows[j])
      ensures Vouches(similar, d, anchor, rows[j]) ==>
        ReadRect(rows[j].geometry).Ok? && SumOf(similar, d, anchor, rows[j]) == Score(similar, d, anchor, rows[j])
    {
      WhenItVouches(similar, d, anchor, rows[j]);
    }
    hide Vouches, Qualifies, SumOf, Score, ReadRect, Area;
  }

  /**
   * Earlier evidence of a run binds exactly when it is of the current policy, complete and without error, its best row for the most
   * confident detection vouches for that, and a neighbouring frame of the video confirms the detection near the same place.
   */
  lemma WhenPreflightBinds(preflight: Preflight, similar: (string, string) -> real, cluster: Cluster, frameCount: int)
    requires cluster.detections != []
    ensures var d := Representative(cluster);
      PreflightBinds(preflight, similar, cluster, frameCount) <==>
        && preflight.currentPolicy && preflight.complete && !preflight.error
        && 0 <= d.frame < frameCount && NextTo(d) && 0 <= d.confirmation.frame.value < frameCount
        && ReadRect(d.geometry).Ok?
        && (exists k :: BestVoucher(similar, d, ReadRect(d.geometry).value, preflight.sourceRows, k))
        && ReadsNear(similar, d, ReadRect(d.geometry).value, d.confirmation.text, d.confirmation.geometry)
  {
    var d := Representative(cluster);
    WhenItIsConfirmed(d);
    if ReadRect(d.geometry).Ok? {
      var anchor := ReadRect(d.geometry).value;
      ReadHasArea(d.geometry);
      WhenItReadsNear(similar, d, anchor, d.confirmation.text, d.confirmation.geometry);
      forall k
        ensures BestSource(similar, d, anchor, preflight.sourceRows, k) <==> BestVoucher(similar, d, anchor, preflight.sourceRows, k)
      {
        WhenRowIsBest(similar, d, anchor, preflight.sourceRows, k);
      }
    }
    hide BestSource, BestVoucher, Agrees, ReadsNear, ReadRect, Representative, Area, Confirmed;
  }
}
