/** A run in which the cut leaves an occurrence that starts after its own end. */
module LongSubtitle {
  import opened Prelude
  import opened Text
  import opened Sorting
  import opened Geometry
  import opened Median
  import opened FrameScan
  import opened SourceScan
  import opened ResidualEvidence
  import opened WindowDecision
  import opened Clustering
  import opened Normalization
  import opened SourceMatching
  import opened Occurrences
  import opened ReviewedResiduals

  const QUARTER := Box(0.0, 0.0, 0.5, 0.5)

  /** One residual on frame 5 of the encoded output, confirmed on frame 4. */
  const RESIDUAL := Detection(5, "a", 0.9, WHOLE, Confirmation(true, Some(4), "a", 0.9, WHOLE))

  const RULES := Rules((text: string) => text, (a: string, b: string) => 1.0, (rows: seq<Detection>) => "a",
                       (text: string, start: int, end: int, box: Box) => "x")

  const OBJECT := Reviewed("residual_content_x", "a", Stored(QUARTER), Value(5), Value(5), Value(5))

  const CLUSTER := Cluster("a", Corners(QUARTER), [RESIDUAL], ReviewObject(Some(Stored(QUARTER)), Some(5), Some(5)))

  const TRACK := EncodedAuthority(3, 6, [4, 5], QUARTER, false)

  /** A rendered subtitle with another text at the same place, from frame 1 to frame 50. */
  const SUBTITLE := TimelineRow("s", Some(1), Some(50), [0.0, 0.0, 1.0, 1.0])

  const SCENE := Scene(ANY_TEXT, 2, 2, true, [SUBTITLE], [RenderTrack("s", "c", "x", true)], (id: string) => "b")

  const VIDEO := Video(100, SCENE, Preflight(false, false, false, []), (a: string, b: string) => 0.0, ALIKE)

  const SCAN := Scan((f: int) => Image(0, 0, []), (f: int) => true, "", "a", "y")

  lemma ResidualIsUsable()
    ensures ReadBox(WHOLE) == Some(QUARTER) && ReadRect(WHOLE) == Ok(Corners(QUARTER)) && ReadRect(Stored(QUARTER)) == Ok(Corners(QUARTER))
    ensures Overlap(Corners(QUARTER), Corners(QUARTER)) == 1.0
    ensures Strip("a") == "a" && Trimmed(RESIDUAL) == RESIDUAL
  {
    SelfOverlap(QUARTER);
  }

  /** A single usable row that is no noise becomes the one object shown. */
  lemma OneObject(rules: Rules, d: Detection, maxGap: int)
    requires Usable(rules, d) && !Noise(Opened(d))
    ensures Normalized(rules, [d], [], maxGap) == [ObjectOf(rules, Opened(d))]
  {
    hide Usable, Noise, Opened, ObjectOf;
    SortOfSorted([d], ByFrame);
    OneTemporal(rules, d, maxGap);
    var t := Opened(d);
    OpenedRows(d);
    assert [t][..|[t]| - 1] == [];
    assert IsReviewed(t, []);
    assert ObjectsOf(rules, [t], []) == [] + [ObjectOf(rules, t)];
    UsableHasPlace(rules, d);
  }

  lemma UsableHasPlace(rules: Rules, d: Detection)
    requires Usable(rules, d)
    ensures !NoGeometry([d])
  {
    assert [d][0] == d;
  }

  lemma OpenedRows(d: Detection)
    ensures Opened(d).rows == [d]
  {
  }

  lemma OneTemporal(rules: Rules, d: Detection, maxGap: int)
    requires Usable(rules, d)
    ensures Temporals(rules, Max(1, maxGap), [d]) == [Opened(d)]
  {
    hide Usable, Opened;
    assert [d][..|[d]| - 1] == [];
    assert [] + [Opened(d)] == [Opened(d)];
  }

  lemma ResidualObject()
    ensures Usable(RULES, RESIDUAL) && !Noise(Opened(RESIDUAL))
    ensures ObjectOf(RULES, Opened(RESIDUAL)) == OBJECT
  {
    ResidualIsUsable();
    hide MedianGeometry, Strip, RepresentativeRow, ReadRect, Overlap;
    MedianOfOne(RESIDUAL);
    OneRepresentative();
    OpenedRows(RESIDUAL);
    ObjectOfRow(RULES, RESIDUAL, QUARTER, "a");
    assert OBJECT.contentId == "residual_content_" + "x";
  }

  lemma ObjectOfRow(rules: Rules, d: Detection, box: Box, text: string)
    requires MedianGeometry([d]) == box && rules.consensus([d]) == text && RepresentativeRow([d], text) == d && d.frame > 0
    ensures ObjectOf(rules, Opened(d))
         == Reviewed("residual_content_" + rules.identity(rules.signature(text), d.frame, d.frame, box), text, Stored(box),
                     Value(d.frame), Value(d.frame), Value(d.frame))
  {
    hide MedianGeometry, RepresentativeRow;
  }

  lemma OneRepresentative()
    ensures RepresentativeRow([RESIDUAL], "a") == RESIDUAL
  {
    var shown := if Showing([RESIDUAL], "a") != [] then Showing([RESIDUAL], "a") else [RESIDUAL];
    assert shown[MostConfident(shown)] in [RESIDUAL];
  }

  lemma OneCluster()
    ensures ReviewedClusters(ANY_TEXT, ALIKE, RULES, [RESIDUAL], [], 6) == Ok([CLUSTER])
  {
    ResidualObject();
    OneObject(RULES, RESIDUAL, 6);
    ObjectBinds();
    hide Normalized, ClusterFor, Bindable, ObjectOf, Usable, Noise;
    BoundOne(ANY_TEXT, ALIKE, [RESIDUAL], OBJECT);
  }

  lemma ObjectBinds()
    ensures Bindable(ANY_TEXT, OBJECT) && ClusterFor(ANY_TEXT, ALIKE, OBJECT, [RESIDUAL]) == CLUSTER
  {
    ResidualIsUsable();
    ResidualIsEvidence();
    hide IsEvidence, EvidenceFor, ReadRect, Sort, Strip;
    AllEvidence(ANY_TEXT, ALIKE, OBJECT, Corners(QUARTER), [RESIDUAL]);
    SortOfSorted([RESIDUAL], ByFrame);
  }

  lemma ResidualIsEvidence()
    ensures Bindable(ANY_TEXT, OBJECT)
    ensures IsEvidence(ANY_TEXT, ALIKE, OBJECT, Corners(QUARTER), RESIDUAL)
  {
    ResidualIsUsable();
    IdIsTrimmed();
    RowIsEvidence(ANY_TEXT, ALIKE, OBJECT, Corners(QUARTER), RESIDUAL);
  }

  lemma IdIsTrimmed()
    ensures Strip(OBJECT.contentId) != ""
  {
    assert Stripped("residual_content_x");
    StripIsIdempotent("residual_content_x");
  }

  /** A row over the anchor of the object, on its frame and with its text, is evidence under a similarity that accepts it. */
  lemma RowIsEvidence(script: Script, similarity: Similarity, review: Reviewed, anchor: Rect, d: Detection)
    requires review.startFrame == Value(d.frame) && review.endFrame == Value(d.frame) && d.frame != 0
    requires ReadRect(d.geometry) == Ok(anchor) && Overlap(anchor, anchor) == 1.0
    requires similarity.ratio(script.signature(Strip(review.text)), script.signature(Strip(d.text))) == 1.0
    ensures IsEvidence(script, similarity, review, anchor, d)
  {
    hide Overlap, Strip, Contains, Min, ReadRect;
  }

  /** The frames of one detection confirmed on the frame before. */
  lemma FramesOfOne(d: Detection, frameCount: int)
    requires ConfirmedInVideo(d, frameCount) && InVideo(d.frame, frameCount) && d.confirmation.frame.value == d.frame - 1
    ensures EvidenceFrames([d], frameCount) == [d.frame - 1, d.frame] && ConfirmedCount([d]) == 1
  {
    assert [d][..|[d]| - 1] == [];
    var f := d.frame;
    assert ObservedFrames([d], frameCount) == [f] && NeighbourFrames([d], frameCount) == [f - 1];
    assert [f] + [f - 1] == [f, f - 1];
    assert [f, f - 1][1..] == [f - 1];
    assert [f - 1][1..] == [];
    assert SortedDistinct([f - 1]) == [f - 1];
    assert InsertFrame(f, [f - 1]) == [f - 1] + InsertFrame(f, [f - 1][1..]);
    assert SortedDistinct([f, f - 1]) == [f - 1, f];
  }

  /** One stable detection confirmed on the frame before is a short track of two frames, padded by one on each side. */
  lemma TrackOfOne(c: Cluster, d: Detection, box: Box, frameCount: int)
    requires c.detections == [d] && AnchorOf(c) == Ok(Corners(box)) && ReadBox(d.geometry) == Some(box) && StableDetection(d, Corners(box))
    requires ConfirmedInVideo(d, frameCount) && InVideo(d.frame, frameCount) && d.confirmation.frame.value == d.frame - 1
    ensures EncodedAuthorityOf(c, frameCount)
         == Some(EncodedAuthority(Max(0, d.frame - 2), Min(frameCount - 1, d.frame + 1), [d.frame - 1, d.frame], box, false))
  {
    FramesOfOne(d, frameCount);
    assert [d][..|[d]| - 1] == [];
    assert BoxesOf([d], Corners(box)) == [box];
    hide StableDetection, EvidenceFrames, ConfirmedCount, MedianBox, AnchorOf, ReadBox;
    MedianOfCopies([box], box);
  }

  lemma ResidualFacts()
    ensures StableDetection(RESIDUAL, Corners(QUARTER)) && ConfirmedInVideo(RESIDUAL, 100) && InVideo(RESIDUAL.frame, 100)
    ensures AnchorOf(CLUSTER) == Ok(Corners(QUARTER)) && AnyConfirmed(CLUSTER.detections)
  {
    ResidualIsUsable();
    hide Overlap, Strip, ReadRect;
    SameGeometryIsStable(RESIDUAL, Corners(QUARTER));
    assert CLUSTER.detections[0].confirmation.onAdjacentFrame;
  }

  lemma ShortTrack()
    ensures EncodedAuthorityOf(CLUSTER, 100) == Some(TRACK)
  {
    ResidualFacts();
    hide StableDetection, EncodedAuthorityOf, AnchorOf, Corners, ConfirmedInVideo;
    TrackOfOne(CLUSTER, RESIDUAL, QUARTER, 100);
  }

  // ----- The run -----

  const TEXT := "a"

  /** The window of the track: padded by one frame on each side, from 2 to 7. */
  const SETTLED := Window(2, 7, TrackMatches([4, 5], TEXT, 0.9, QUARTER), Flash)

  /** A track settles the window whatever the timeline holds, as long as no preflight evidence is on record. */
  lemma TrackSettlesAs(cluster: Cluster, scan: Scan, target: Target, video: Video, track: EncodedAuthority, confidence: real, w: Window)
    requires cluster.detections != [] && video.frameCount >= 1 && !video.preflight.complete
    requires TrackOf(cluster, video.scene.encoded, video.frameCount) == Some(track) && track.hitFrames != []
    requires KeepOrPad(track.start, track.end, track.hitFrames, track.hitFrames, video.frameCount, true, false, 1, Some(track))
          == Ok((w.start, w.end, w.path))
    requires w.matches == TrackMatches(track.hitFrames, ShownText(scan), confidence, track.geometry)
    requires Strip(scan.correction) == "" && HoldsItsFrame(w, cluster, video.frameCount)
    ensures Settles(Ok((w, ShownText(scan))), cluster, scan, target, video)
  {
    hide KeepOrPad, TrackOf, GeometryOf, Holds, MedianBox, AgreedText, ShownText, MatchIn;
    TrackMatchesAre(track.hitFrames, ShownText(scan), confidence, track.geometry);
    TrackShowsOnly(track.hitFrames, ShownText(scan), confidence, track.geometry);
    GeometryIs(w);
    TrackTextIsAgreed(w.matches, ShownText(scan));
    var sees := (f: int) => SeenOn(scan, target, video, f);
    var window: Result<Window, DecisionError> := Ok(w);
    assert AreSeeds([], video.preflight, video.similar, cluster, video.frameCount);
    TrackOutcomeHolds(w, track, video.frameCount, ShownText(scan));
    WindowOutcomeHolds(window, map[], sees, video.frameCount, cluster, video.scene.timeline, video.scene.encoded, video.preflight,
                       video.similar, ShownText(scan), []);
    hide TrackOutcome, WindowOutcome, AreSeeds;
    assert OutcomeOf(window, map[], sees, [], cluster, scan, target, video);
    OutcomeSettles(Ok((w, ShownText(scan))), window, map[], sees, [], cluster, scan, target, video);
  }

  lemma SettledWindow()
    ensures SETTLED.matches != [] && GeometryOf(SETTLED) == QUARTER
    ensures KeepOrPad(TRACK.start, TRACK.end, TRACK.hitFrames, TRACK.hitFrames, 100, true, false, 1, Some(TRACK))
         == Ok((SETTLED.start, SETTLED.end, SETTLED.path))
    ensures HoldsItsFrame(SETTLED, CLUSTER, 100) && Representative(CLUSTER).frame == 5
  {
    hide MedianBox, Ratio, CountWithin;
    TrackMatchesAre([4, 5], TEXT, 0.9, QUARTER);
    GeometryIs(SETTLED);
    assert Least(4, [4, 5]) == 4 && Greatest(4, [4, 5]) == 5;
    assert Representative(CLUSTER) == RESIDUAL;
  }

  lemma ResidualSettles()
    ensures Settles(Ok((SETTLED, TEXT)), CLUSTER, SCAN, Target("a", Corners(QUARTER), ""), VIDEO)
    ensures TargetOf(ANY_TEXT, CLUSTER, "") == Ok(Target("a", Corners(QUARTER), ""))
  {
    ResidualFacts();
    ShortTrack();
    SettledWindow();
    hide EncodedAuthorityOf, KeepOrPad, GeometryOf, AnyConfirmed, HoldsItsFrame, StableDetection, ConfirmedInVideo, AnchorOf, Settles;
    assert Strip(SCAN.correction) == "" && ShownText(SCAN) == TEXT;
    TrackSettlesAs(CLUSTER, SCAN, Target("a", Corners(QUARTER), ""), VIDEO, TRACK, 0.9, SETTLED);
  }

  lemma SubtitleConflicts()
    ensures Conflicts(SCENE, SUBTITLE, SETTLED, TEXT)
  {
    SettledWindow();
    ResidualIsUsable();
    hide GeometryOf, Overlap, KeepOrPad, HoldsItsFrame;
    assert PlaceOf(SUBTITLE, 2, 2) == Corners(QUARTER);
    assert SCENE.tracks[0].textId == "s";
  }

  lemma SceneRefs()
    ensures RefsOf(SCENE, SCENE.timeline, SETTLED, TEXT) == Refs(["s"], [], [])
  {
    SubtitleConflicts();
    hide GeometryOf, Overlaps, Rendered, ShowsText;
    assert SCENE.timeline[..0] == [];
    assert [] + ["s"] == ["s"];
    assert Noted(SCENE, Refs([], [], []), SUBTITLE, SETTLED, TEXT) == Refs(["s"], [], []);
  }

  lemma OneTranslation()
    ensures SharedTranslation(SCENE.tracks, ["s"]) == Some(("c", "x")) && SharedTranslation(SCENE.tracks, []) == None
  {
    assert Strip("x") == "x";
    assert SCENE.tracks[..0] == [];
    assert "s" in ["s"];
    assert TranslationsOf(SCENE.tracks, ["s"]) == [] + [("c", "x")];
    assert TranslationsOf(SCENE.tracks, []) == [] + [];
  }

  /** Over a single conflicting subtitle the occurrence is cut to its end, and takes the suggested translation. */
  lemma CutToOne(scene: Scene, w: Window, text: string, suggested: string, id: string, target: TimelineRow)
    requires ProperScene(scene) && w.matches != [] && scene.encoded && Strip(suggested) != ""
    requires RefsOf(scene, scene.timeline, w, text) == Refs([id], [], []) && RowFor(scene.timeline, id) == Some(target)
    requires SharedTranslation(scene.tracks, [id]).Some? && SharedTranslation(scene.tracks, []).None? && |target.coords| == 4
    ensures Emitted(scene, w, text, suggested)
         == Ok(Occurrence(CutStart(w, target), w.end, GeometryOf(w), text, Strip(suggested), [], []))
  {
    LeastIs([id]);
    hide RefsOf, GeometryOf, LeastId, SharedTranslation, RowFor, Strip, CutStart;
  }

  lemma SceneFacts()
    ensures ProperScene(SCENE) && SCENE.encoded && SETTLED.matches != [] && SETTLED.end == 7
    ensures RowFor(SCENE.timeline, "s") == Some(SUBTITLE) && |SUBTITLE.coords| == 4 && CutStart(SETTLED, SUBTITLE) == 50
    ensures Strip("y") == "y"
  {
    hide TrackMatches;
  }

  lemma SubtitleIsCutTo()
    ensures Emitted(SCENE, SETTLED, TEXT, "y") == Ok(Occurrence(50, 7, GeometryOf(SETTLED), TEXT, "y", [], []))
  {
    hide *;
    SceneRefs();
    OneTranslation();
    SceneFacts();
    CutToOne(SCENE, SETTLED, TEXT, "y", "s", SUBTITLE);
  }

  /**
   * From one raw row to an inverted occurrence: the residual settles on the window from 2 to 7, the subtitle over it lasts
   * until 50, and the occurrence is emitted from 50 to 7.
   */
  lemma CutCanInvert()
    ensures ReviewedClusters(ANY_TEXT, ALIKE, RULES, [RESIDUAL], [], 6) == Ok([CLUSTER])
    ensures OneRowPerId(SCENE.timeline) && InVideo(Representative(CLUSTER).frame, 100)
    ensures exists o :: Proposed(Ok(o), CLUSTER, SCAN, VIDEO) && o.start == 50 && o.end == 7
  {
    OneCluster();
    SettledWindow();
    ResidualSettles();
    SubtitleIsCutTo();
    hide ReviewedClusters, GeometryOf, Emitted, Settles, TargetOf, KeepOrPad, HoldsItsFrame;
    var o := Occurrence(50, 7, GeometryOf(SETTLED), TEXT, "y", [], []);
    assert Ok(o) == Emission(Ok((SETTLED, TEXT)), SCAN, SCENE);
    assert Proposed(Ok(o), CLUSTER, SCAN, VIDEO);
  }
}
