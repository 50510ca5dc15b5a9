/** Binding frame evidence to the temporal objects an operator reviewed, and what that means for the proposed window. */
module ReviewedResiduals {
  import opened Prelude
  import opened Text
  import opened Sorting
  import opened Geometry
  import opened FrameScan
  import opened SourceScan
  import opened ResidualEvidence
  import opened WindowDecision
  import opened Clustering
  import opened Normalization
  import opened SourceMatching
  import opened Occurrences

  datatype Similarity = Similarity(ratio: (string, string) -> real)

  datatype BindingError = NoMatchingEvidence(contentId: string)

  function Lookup(field: Field, default: Option<int>): Option<int> {
    match field
    case Missing => default
    case Null => None
    case Value(f) => Some(f)
  }

  function Given(field: Field): Option<int> { Lookup(field, None) }

  function StartOf(review: Reviewed): int {
    OrDefault(Lookup(review.startFrame, Lookup(review.frameIndex, Some(0))), 0)
  }

  /** An end frame of zero falls back to the start, like a missing one. */
  function EndOf(review: Reviewed): int {
    OrDefault(Lookup(review.endFrame, Lookup(review.frameIndex, Some(StartOf(review)))), StartOf(review))
  }

  predicate SameText(similarity: Similarity, a: string, b: string) {
    var ratio := similarity.ratio(a, b);
    || ratio >= 0.72
    || (Min(|a|, |b|) >= 4 && (Contains(b, a) || Contains(a, b)) && ratio >= 0.62)
  }

  predicate IsEvidence(script: Script, similarity: Similarity, review: Reviewed, anchor: Rect, d: Detection) {
    && StartOf(review) <= d.frame <= EndOf(review)
    && ReadRect(d.geometry).Ok?
    && Overlap(anchor, ReadRect(d.geometry).value) >= 0.55
    && SameText(similarity, script.signature(Strip(review.text)), script.signature(Strip(d.text)))
  }

  function EvidenceFor(script: Script, similarity: Similarity, review: Reviewed, anchor: Rect, detections: seq<Detection>): seq<Detection> {
    if detections == [] then []
    else
      var d := detections[|detections| - 1];
      EvidenceFor(script, similarity, review, anchor, detections[..|detections| - 1])
      + (if IsEvidence(script, similarity, review, anchor, d) then [Trimmed(d)] else [])
  }

  predicate Bindable(script: Script, review: Reviewed) {
    && Strip(review.contentId) != ""
    && script.signature(Strip(review.text)) != "" && script.containsCjk(script.signature(Strip(review.text)))
    && ReadRect(review.geometry).Ok?
  }

  function ClusterFor(script: Script, similarity: Similarity, review: Reviewed, detections: seq<Detection>): Cluster
    requires Bindable(script, review)
  {
    var anchor := ReadRect(review.geometry).value;
    Cluster(script.signature(Strip(review.text)), anchor,
            Sort(EvidenceFor(script, similarity, review, anchor, detections), ByFrame),
            ReviewObject(Some(review.geometry), Given(review.startFrame), Given(review.endFrame)))
  }

  /** One cluster per bindable object, in order; the first object without evidence fails the binding. */
  function Bound(script: Script, similarity: Similarity, detections: seq<Detection>, reviews: seq<Reviewed>): Result<seq<Cluster>, BindingError> {
    if reviews == [] then Ok([])
    else
      var earlier := Bound(script, similarity, detections, reviews[..|reviews| - 1]);
      var review := reviews[|reviews| - 1];
      if earlier.Err? || !Bindable(script, review) then earlier
      else
        var cluster := ClusterFor(script, similarity, review, detections);
        if cluster.detections == [] then Err(NoMatchingEvidence(Strip(review.contentId))) else Ok(earlier.value + [cluster])
  }

  method ClusterReviewableResidualDetections(script: Script, similarity: Similarity, detections: seq<Detection>, reviews: seq<Reviewed>)
    returns (r: Result<seq<Cluster>, BindingError>)
    ensures r == Bound(script, similarity, detections, reviews)
  {
    hide IsEvidence, Bindable, ClusterFor, Strip;
    var clusters: seq<Cluster> := [];
    var i := 0;
    while i < |reviews|
      invariant 0 <= i <= |reviews|
      invariant Bound(script, similarity, detections, reviews[..i]) == Ok(clusters)
    {
      var review := reviews[i];
      assert reviews[..i + 1][..i] == reviews[..i];
      if Bindable(script, review) {
        var evidence := CollectEvidence(script, similarity, review, detections);
        var cluster := ClusterFor(script, similarity, review, detections);
        if evidence == [] {
          BoundFails(script, similarity, detections, reviews, i + 1);
          return Err(NoMatchingEvidence(Strip(review.contentId)));
        }
        clusters := clusters + [cluster.(detections := evidence)];
      }
      i := i + 1;
    }
    assert reviews[..i] == reviews;
    r := Ok(clusters);
  }

  method CollectEvidence(script: Script, similarity: Similarity, review: Reviewed, detections: seq<Detection>)
    returns (evidence: seq<Detection>)
    requires Bindable(script, review)
    ensures evidence == ClusterFor(script, similarity, review, detections).detections
  {
    hide IsEvidence;
    var anchor := ReadRect(review.geometry).value;
    evidence := [];
    var i := 0;
    while i < |detections|
      invariant 0 <= i <= |detections|
      invariant evidence == EvidenceFor(script, similarity, review, anchor, detections[..i])
    {
      assert detections[..i + 1][..i] == detections[..i];
      if IsEvidence(script, similarity, review, anchor, detections[i]) {
        evidence := evidence + [Trimmed(detections[i])];
      }
      i := i + 1;
    }
    assert detections[..i] == detections;
    evidence := Sort(evidence, ByFrame);
  }

  lemma BoundFails(script: Script, similarity: Similarity, detections: seq<Detection>, reviews: seq<Reviewed>, n: nat)
    requires n <= |reviews| && Bound(script, similarity, detections, reviews[..n]).Err?
    ensures Bound(script, similarity, detections, reviews) == Bound(script, similarity, detections, reviews[..n])
  {
    hide Bindable;
    PrefixFails(t => Bound(script, similarity, detections, t), reviews, n);
  }

  // ----- What the binding returns -----

  function Bindables(script: Script, reviews: seq<Reviewed>): (r: seq<Reviewed>)
    ensures forall i :: 0 <= i < |r| ==> Bindable(script, r[i])
    ensures forall o :: o in r <==> o in reviews && Bindable(script, o)
  {
    if reviews == [] then []
    else
      var last := reviews[|reviews| - 1];
      assert reviews == reviews[..|reviews| - 1] + [last];
      Bindables(script, reviews[..|reviews| - 1]) + (if Bindable(script, last) then [last] else [])
  }

  predicate HasEvidence(script: Script, similarity: Similarity, review: Reviewed, detections: seq<Detection>)
    requires Bindable(script, review)
  {
    exists d :: d in detections && IsEvidence(script, similarity, review, ReadRect(review.geometry).value, d)
  }

  /** The first bindable object without evidence. */
  ghost predicate FirstUnbound(script: Script, similarity: Similarity, detections: seq<Detection>, bindable: seq<Reviewed>, k: int)
    requires forall i :: 0 <= i < |bindable| ==> Bindable(script, bindable[i])
  {
    && 0 <= k < |bindable| && !HasEvidence(script, similarity, bindable[k], detections)
    && forall i :: 0 <= i < k ==> HasEvidence(script, similarity, bindable[i], detections)
  }

  /** One cluster per bindable object, in order; or the error names the first of them without evidence. */
  ghost predicate BindsAll(script: Script, similarity: Similarity, detections: seq<Detection>, bindable: seq<Reviewed>,
                           r: Result<seq<Cluster>, BindingError>)
    requires forall i :: 0 <= i < |bindable| ==> Bindable(script, bindable[i])
  {
    match r
    case Ok(clusters) =>
      && |clusters| == |bindable|
      && forall i :: 0 <= i < |bindable| ==>
           && HasEvidence(script, similarity, bindable[i], detections)
           && clusters[i] == ClusterFor(script, similarity, bindable[i], detections)
    case Err(e) =>
      exists k :: FirstUnbound(script, similarity, detections, bindable, k) && e == NoMatchingEvidence(Strip(bindable[k].contentId))
  }

  lemma {:induction false} EvidenceIs(script: Script, similarity: Similarity, review: Reviewed, anchor: Rect, detections: seq<Detection>, e: Detection)
    ensures e in EvidenceFor(script, similarity, review, anchor, detections) <==>
      exists d :: d in detections && IsEvidence(script, similarity, review, anchor, d) && Trimmed(d) == e
  {
    hide IsEvidence, Strip;
    if detections != [] {
      var n := |detections| - 1;
      EvidenceIs(script, similarity, review, anchor, detections[..n], e);
      assert detections == detections[..n] + [detections[n]];
    }
  }

  /** A cluster holds exactly the evidence of its object, trimmed and in frame order. */
  lemma ClusterHolds(script: Script, similarity: Similarity, review: Reviewed, detections: seq<Detection>)
    requires Bindable(script, review)
    ensures var c, anchor := ClusterFor(script, similarity, review, detections), ReadRect(review.geometry).value;
      && SortedBy(c.detections, ByFrame)
      && (forall e :: e in c.detections <==>
            exists d :: d in detections && IsEvidence(script, similarity, review, anchor, d) && Trimmed(d) == e)
      && (c.detections != [] <==> HasEvidence(script, similarity, review, detections))
  {
    hide IsEvidence, Strip, EvidenceFor;
    var anchor := ReadRect(review.geometry).value;
    var evidence := EvidenceFor(script, similarity, review, anchor, detections);
    SortSorts(evidence, ByFrame);
    var c := ClusterFor(script, similarity, review, detections);
    forall e
      ensures e in c.detections <==>
        exists d :: d in detections && IsEvidence(script, similarity, review, anchor, d) && Trimmed(d) == e
    {
      EvidenceIs(script, similarity, review, anchor, detections, e);
      SameMembers(evidence, ByFrame, e);
    }
    if c.detections != [] {
      assert c.detections[0] in c.detections;
    }
    if d :| d in detections && IsEvidence(script, similarity, review, anchor, d) {
      assert Trimmed(d) in c.detections;
    }
  }

  /** The binding yields the cluster of every bindable object, in order, and fails at the first of them without evidence. */
  lemma {:induction false} BindingIs(script: Script, similarity: Similarity, detections: seq<Detection>, reviews: seq<Reviewed>)
    ensures BindsAll(script, similarity, detections, Bindables(script, reviews), Bound(script, similarity, detections, reviews))
  {
    hide HasEvidence, Bindable, ClusterFor, Strip, BindsAll, IsEvidence, ReadRect;
    if reviews == [] {
      NothingBound(script, similarity, detections);
    } else {
      var front, last := reviews[..|reviews| - 1], reviews[|reviews| - 1];
      BindingIs(script, similarity, detections, front);
      if Bindable(script, last) {
        ClusterHolds(script, similarity, last, detections);
        BindNext(script, similarity, detections, Bindables(script, front), Bound(script, similarity, detections, front), last);
      } else {
        assert Bindables(script, reviews) == Bindables(script, front);
      }
    }
  }

  lemma NothingBound(script: Script, similarity: Similarity, detections: seq<Detection>)
    ensures BindsAll(script, similarity, detections, [], Ok([]))
  {
  }

  lemma BindNext(script: Script, similarity: Similarity, detections: seq<Detection>, bindable: seq<Reviewed>,
                 r: Result<seq<Cluster>, BindingError>, last: Reviewed)
    requires forall i :: 0 <= i < |bindable| ==> Bindable(script, bindable[i])
    requires Bindable(script, last) && BindsAll(script, similarity, detections, bindable, r)
    ensures BindsAll(script, similarity, detections, bindable + [last],
                     if r.Err? then r
                     else if !HasEvidence(script, similarity, last, detections) then Err(NoMatchingEvidence(Strip(last.contentId)))
                     else Ok(r.value + [ClusterFor(script, similarity, last, detections)]))
  {
    hide HasEvidence, Bindable, ClusterFor, Strip;
    var all := bindable + [last];
    assert forall i :: 0 <= i < |bindable| ==> all[i] == bindable[i];
    if r.Err? {
      var k :| FirstUnbound(script, similarity, detections, bindable, k) && r.error == NoMatchingEvidence(Strip(bindable[k].contentId));
      assert FirstUnbound(script, similarity, detections, all, k);
    } else if !HasEvidence(script, similarity, last, detections) {
      assert FirstUnbound(script, similarity, detections, all, |bindable|);
    }
  }

  lemma {:induction false} EvidenceInRange(script: Script, similarity: Similarity, review: Reviewed, anchor: Rect, detections: seq<Detection>)
    ensures forall d :: d in EvidenceFor(script, similarity, review, anchor, detections) ==> StartOf(review) <= d.frame <= EndOf(review)
  {
    if detections != [] {
      EvidenceInRange(script, similarity, review, anchor, detections[..|detections| - 1]);
    }
  }

  /** Every detection of a bound cluster lies in the reviewed range. */
  lemma ClusterInRange(script: Script, similarity: Similarity, review: Reviewed, detections: seq<Detection>)
    requires Bindable(script, review)
    ensures var c := ClusterFor(script, similarity, review, detections);
      forall i :: 0 <= i < |c.detections| ==> StartOf(review) <= c.detections[i].frame <= EndOf(review)
  {
    var anchor := ReadRect(review.geometry).value;
    var evidence := EvidenceFor(script, similarity, review, anchor, detections);
    EvidenceInRange(script, similarity, review, anchor, detections);
    forall i | 0 <= i < |evidence|
      ensures StartOf(review) <= Sort(evidence, ByFrame)[i].frame <= EndOf(review)
    {
      SameMembers(evidence, ByFrame, Sort(evidence, ByFrame)[i]);
    }
  }

  lemma SparseTrackReaches(cluster: Cluster, frameCount: int, track: EncodedAuthority, r: int)
    requires EncodedAuthorityOf(cluster, frameCount) == Some(track) && r in track.hitFrames
    requires !track.dense && StrictlyAscending(track.hitFrames) && InVideo(r, frameCount)
    ensures TrackReaches(track, r)
  {
    hide EncodedAuthorityOf;
    AuthorityParts(cluster, frameCount);
    BetweenEnds(track.hitFrames, r);
  }

  lemma DenseTrackRange(cluster: Cluster, frameCount: int, track: EncodedAuthority, r: int)
    requires EncodedAuthorityOf(cluster, frameCount) == Some(track) && r in track.hitFrames
    requires track.dense && StrictlyAscending(track.hitFrames)
    ensures cluster.review.startFrame.Some? ==> track.start == cluster.review.startFrame.value
    ensures cluster.review.startFrame.None? ==> track.start <= r
    ensures cluster.review.endFrame.Some? ==> track.end == cluster.review.endFrame.value
    ensures cluster.review.endFrame.None? ==> r <= track.end
  {
    hide EncodedAuthorityOf;
    AuthorityParts(cluster, frameCount);
    BetweenEnds(track.hitFrames, r);
  }

  /** What a cluster keeps of the object it was bound to. */
  predicate TrackFollows(cluster: Cluster, review: Reviewed, r: int) {
    && cluster.review == ReviewObject(Some(review.geometry), Given(review.startFrame), Given(review.endFrame))
    && StartOf(review) <= r <= EndOf(review)
  }

  lemma ClusterKeepsObject(script: Script, similarity: Similarity, review: Reviewed, detections: seq<Detection>)
    requires Bindable(script, review)
    ensures ClusterFor(script, similarity, review, detections).review
         == ReviewObject(Some(review.geometry), Given(review.startFrame), Given(review.endFrame))
  {
  }

  lemma BoundTrackFollows(script: Script, similarity: Similarity, review: Reviewed, detections: seq<Detection>, frameCount: int)
    requires Bindable(script, review) && ClusterFor(script, similarity, review, detections).detections != []
    requires var c := ClusterFor(script, similarity, review, detections);
      EncodedAuthorityOf(c, frameCount).Some? && InVideo(Representative(c).frame, frameCount)
    ensures var c := ClusterFor(script, similarity, review, detections);
      var track := EncodedAuthorityOf(c, frameCount).value;
      && TrackFollows(c, review, Representative(c).frame)
      && Representative(c).frame in track.hitFrames && StrictlyAscending(track.hitFrames)
  {
    hide EncodedAuthorityOf, ClusterFor, Bindable, StartOf, EndOf, StrictlyAscending, Lookup;
    var c := ClusterFor(script, similarity, review, detections);
    ClusterKeepsObject(script, similarity, review, detections);
    ClusterInRange(script, similarity, review, detections);
    AuthorityShape(c, frameCount);
  }

  /** A dense track takes the stored range literally, while the binding read an end of zero as absent. */
  lemma DenseTrackReaches(cluster: Cluster, frameCount: int, track: EncodedAuthority, review: Reviewed, r: int)
    requires EncodedAuthorityOf(cluster, frameCount) == Some(track) && r in track.hitFrames
    requires track.dense && StrictlyAscending(track.hitFrames) && r >= 0 && TrackFollows(cluster, review, r)
    ensures TrackReaches(track, r) <==> !(review.endFrame == Value(0) && r > 1)
  {
    hide EncodedAuthorityOf, StrictlyAscending;
    DenseTrackRange(cluster, frameCount, track, r);
  }

  /**
   * The binding alone, given any object: the encoded track reaches the representative frame in every case but a dense track
   * whose object stores an end frame of zero while the frame is past 1.
   */
  lemma WhenBoundTrackReaches(script: Script, similarity: Similarity, review: Reviewed, detections: seq<Detection>, frameCount: int)
    requires Bindable(script, review) && ClusterFor(script, similarity, review, detections).detections != []
    requires var c := ClusterFor(script, similarity, review, detections);
      EncodedAuthorityOf(c, frameCount).Some? && InVideo(Representative(c).frame, frameCount)
    ensures var c := ClusterFor(script, similarity, review, detections);
      var track := EncodedAuthorityOf(c, frameCount).value;
      TrackReaches(track, Representative(c).frame) <==>
      !(track.dense && review.endFrame == Value(0) && Representative(c).frame > 1)
  {
    hide EncodedAuthorityOf, ClusterFor, Bindable, StartOf, EndOf, StrictlyAscending, TrackReaches, TrackFollows;
    var c := ClusterFor(script, similarity, review, detections);
    var track := EncodedAuthorityOf(c, frameCount).value;
    BoundTrackFollows(script, similarity, review, detections, frameCount);
    if track.dense {
      DenseTrackReaches(c, frameCount, track, review, Representative(c).frame);
    } else {
      SparseTrackReaches(c, frameCount, track, Representative(c).frame);
    }
  }

  lemma SpannedNeverExcluded(review: Reviewed, r: int)
    requires Spanned(review) && StartOf(review) <= r <= EndOf(review) && r >= 0
    ensures !(review.endFrame == Value(0) && r > 1)
  {
  }

  /** The clusters the program works on: raw rows bound to the objects the normalization made of the same rows. */
  function ReviewedClusters(script: Script, similarity: Similarity, rules: Rules, detections: seq<Detection>, tracks: seq<Protected>, maxGap: int)
    : Result<seq<Cluster>, BindingError>
  {
    Bound(script, similarity, detections, Normalized(rules, detections, tracks, maxGap))
  }

  /**
   * Every encoded track the program can meet reaches the representative frame: the normalization stores no range that the
   * binding and the track would read differently.
   */
  lemma ReviewedTrackReaches(script: Script, similarity: Similarity, rules: Rules, detections: seq<Detection>, tracks: seq<Protected>,
                             maxGap: int, frameCount: int, k: nat)
    requires ReviewedClusters(script, similarity, rules, detections, tracks, maxGap).Ok?
    requires k < |ReviewedClusters(script, similarity, rules, detections, tracks, maxGap).value|
    ensures var c := ReviewedClusters(script, similarity, rules, detections, tracks, maxGap).value[k];
      && c.detections != []
      && (EncodedAuthorityOf(c, frameCount).Some? && InVideo(Representative(c).frame, frameCount) ==>
            TrackReaches(EncodedAuthorityOf(c, frameCount).value, Representative(c).frame))
  {
    hide EncodedAuthorityOf, ClusterFor, Bound, Normalized, Spanned, StartOf, EndOf, StrictlyAscending, TrackReaches, HasEvidence, ReadRect;
    var objects := Normalized(rules, detections, tracks, maxGap);
    NormalizedAreSpanned(rules, detections, tracks, maxGap);
    BindingIs(script, similarity, detections, objects);
    var review := Bindables(script, objects)[k];
    assert review in objects && Bindable(script, review);
    ClusterHolds(script, similarity, review, detections);
    var c := ClusterFor(script, similarity, review, detections);
    if EncodedAuthorityOf(c, frameCount).Some? && InVideo(Representative(c).frame, frameCount) {
      BoundTrackFollows(script, similarity, review, detections, frameCount);
      SpannedNeverExcluded(review, Representative(c).frame);
      WhenBoundTrackReaches(script, similarity, review, detections, frameCount);
    }
  }

  // ----- From raw rows to proposed occurrences -----

  /**
   * What differs from one occurrence to the next: its source frames as the recognizer sees them, which of them load, the
   * correction of its text, the text shown for an encoded track without one, and the suggested translation.
   */
  datatype Scan = Scan(images: int -> Image, loads: int -> bool, correction: string, encodedText: string, suggested: string)

  /** What does not change from one occurrence to the next. */
  datatype Video = Video(frameCount: int, scene: Scene, preflight: Preflight, similar: (string, string) -> real, similarity: Similarity)

  datatype OccurrenceError =
    | BadCorrection(correction: CorrectionError) | Unsettled(decision: DecisionError) | NotEmitted(emission: EmissionError)

  datatype ProposalError = InvalidMetadata | Unbound(binding: BindingError) | NoReviewableCluster | Stopped(occurrence: OccurrenceError)

  /** The window of one occurrence holds its representative frame, and its geometry is valid. */
  predicate HoldsItsFrame(w: Window, cluster: Cluster, frameCount: int) {
    && cluster.detections != [] && w.matches != [] && ValidBox(GeometryOf(w))
    && (InVideo(Representative(cluster).frame, frameCount) ==> Holds(w.start, w.end, Representative(cluster).frame, frameCount))
  }

  function ShownText(scan: Scan): string { if Strip(scan.correction) != "" then Strip(scan.correction) else scan.encodedText }

  /** The match on one frame; a frame that does not load has none. */
  function SeenOn(scan: Scan, target: Target, video: Video, f: int): Option<Match> {
    if scan.loads(f) then MatchIn(video.scene.script, video.similarity.ratio, target, scan.images(f), f) else None
  }

  ghost predicate OutcomeOf(window: Result<Window, DecisionError>, cache: Cache, sees: int -> Option<Match>, seeds: seq<Match>,
                            cluster: Cluster, scan: Scan, target: Target, video: Video)
    requires cluster.detections != []
  {
    && (forall f :: sees(f) == SeenOn(scan, target, video, f)) && (window.Ok? ==> window.value.matches != [])
    && WindowOutcome(window, cache, sees, video.frameCount, cluster, video.scene.timeline, video.scene.encoded, video.preflight,
                     video.similar, ShownText(scan), seeds)
  }

  /** Some outcome of the window decision, with its text; a settled window is around the representative frame. */
  ghost predicate Settles(res: Result<(Window, string), DecisionError>, cluster: Cluster, scan: Scan, target: Target, video: Video)
    requires cluster.detections != []
  {
    && (res.Ok? ==> HoldsItsFrame(res.value.0, cluster, video.frameCount))
    && exists window, cache, sees, seeds ::
         OutcomeOf(window, cache, sees, seeds, cluster, scan, target, video) && res == WithText(window, Strip(scan.correction))
  }

  predicate ProperScene(scene: Scene) { scene.width >= 2 && scene.height >= 2 }

  /** What is emitted for a settled window. */
  function Emission(settled: Result<(Window, string), DecisionError>, scan: Scan, scene: Scene): Result<Occurrence, OccurrenceError>
    requires ProperScene(scene) && (settled.Ok? ==> settled.value.0.matches != [])
  {
    match settled
    case Err(e) => Err(Unsettled(e))
    case Ok((w, text)) =>
      match Emitted(scene, w, text, scan.suggested)
      case Err(e) => Err(NotEmitted(e))
      case Ok(o) => Ok(o)
  }

  /** The result of one occurrence: its correction is refused, or some settled window is emitted. */
  ghost predicate Proposed(res: Result<Occurrence, OccurrenceError>, cluster: Cluster, scan: Scan, video: Video)
    requires cluster.detections != [] && ProperScene(video.scene)
  {
    match TargetOf(video.scene.script, cluster, scan.correction)
    case Err(e) => res == Err(BadCorrection(e))
    case Ok(target) => exists settled :: Settles(settled, cluster, scan, target, video) && res == Emission(settled, scan, video.scene)
  }

  /** Occurrence by occurrence: every one of these was emitted. */
  ghost predicate AllProposed(clusters: seq<Cluster>, scans: Cluster -> Scan, video: Video, occurrences: seq<Occurrence>) {
    && ProperScene(video.scene) && |occurrences| <= |clusters|
    && forall i :: 0 <= i < |occurrences| ==>
         clusters[i].detections != [] && Proposed(Ok(occurrences[i]), clusters[i], scans(clusters[i]), video)
  }

  /** The first occurrence that fails, after all the others before it were emitted. */
  ghost predicate StopsAt(clusters: seq<Cluster>, scans: Cluster -> Scan, video: Video, occurrences: seq<Occurrence>, e: OccurrenceError) {
    && AllProposed(clusters, scans, video, occurrences) && |occurrences| < |clusters|
    && clusters[|occurrences|].detections != []
    && Proposed(Err(e), clusters[|occurrences|], scans(clusters[|occurrences|]), video)
  }

  /**
   * The main loop over the occurrences that add a subtitle: one per cluster, each emitted for a window that lies in the video
   * and around its own representative frame. It fails without a cluster, and at the first occurrence that cannot be emitted.
   */
  method ProposeReviewedOccurrences(rules: Rules, detections: seq<Detection>, tracks: seq<Protected>, maxGap: int,
                                    scans: Cluster -> Scan, video: Video)
    returns (res: Result<seq<Occurrence>, ProposalError>)
    ensures !ProperScene(video.scene) ==> res == Err(InvalidMetadata)
    ensures ProperScene(video.scene) ==>
      match ReviewedClusters(video.scene.script, video.similarity, rules, detections, tracks, maxGap)
      case Err(e) => res == Err(Unbound(e))
      case Ok(clusters) =>
        if clusters == [] then res == Err(NoReviewableCluster)
        else match res
          case Ok(occurrences) => |occurrences| == |clusters| && AllProposed(clusters, scans, video, occurrences)
          case Err(e) => e.Stopped? && exists occurrences :: StopsAt(clusters, scans, video, occurrences, e.occurrence)
  {
    if !ProperScene(video.scene) {
      return Err(InvalidMetadata);
    }
    hide *;
    var script, similarity := video.scene.script, video.similarity;
    ReviewedClustersAre(script, similarity, rules, detections, tracks, maxGap);
    var objects := NormalizeResidualDetections(rules, detections, tracks, maxGap);
    var bound := ClusterReviewableResidualDetections(script, similarity, detections, objects);
    if bound.Err? {
      return Err(Unbound(bound.error));
    }
    var clusters := bound.value;
    if clusters == [] {
      return Err(NoReviewableCluster);
    }
    var occurrences: seq<Occurrence> := [];
    NothingProposed(clusters, scans, video);
    while |occurrences| < |clusters|
      invariant |occurrences| <= |clusters|
      invariant AllProposed(clusters, scans, video, occurrences)
      decreases |clusters| - |occurrences|
    {
      var cluster := clusters[|occurrences|];
      ReviewedTrackReaches(script, similarity, rules, detections, tracks, maxGap, video.frameCount, |occurrences|);
      var next := ProposeFor(cluster, scans(cluster), video);
      if next.Err? {
        FailureStops(clusters, scans, video, occurrences, next.error);
        return Err(Stopped(next.error));
      }
      OneMoreProposed(clusters, scans, video, occurrences, next.value);
      occurrences := occurrences + [next.value];
    }
    res := Ok(occurrences);
  }

  lemma NothingProposed(clusters: seq<Cluster>, scans: Cluster -> Scan, video: Video)
    requires ProperScene(video.scene)
    ensures AllProposed(clusters, scans, video, [])
  {
  }

  lemma OneMoreProposed(clusters: seq<Cluster>, scans: Cluster -> Scan, video: Video, occurrences: seq<Occurrence>, next: Occurrence)
    requires AllProposed(clusters, scans, video, occurrences) && |occurrences| < |clusters| && clusters[|occurrences|].detections != []
    requires Proposed(Ok(next), clusters[|occurrences|], scans(clusters[|occurrences|]), video)
    ensures AllProposed(clusters, scans, video, occurrences + [next])
  {
    hide Proposed;
  }

  lemma FailureStops(clusters: seq<Cluster>, scans: Cluster -> Scan, video: Video, occurrences: seq<Occurrence>, e: OccurrenceError)
    requires AllProposed(clusters, scans, video, occurrences) && |occurrences| < |clusters| && clusters[|occurrences|].detections != []
    requires Proposed(Err(e), clusters[|occurrences|], scans(clusters[|occurrences|]), video)
    ensures StopsAt(clusters, scans, video, occurrences, e)
  {
    hide Proposed;
  }

  lemma ReviewedClustersAre(script: Script, similarity: Similarity, rules: Rules, detections: seq<Detection>, tracks: seq<Protected>, maxGap: int)
    ensures ReviewedClusters(script, similarity, rules, detections, tracks, maxGap)
         == Bound(script, similarity, detections, Normalized(rules, detections, tracks, maxGap))
  {
  }

  /** One occurrence. */
  method ProposeFor(cluster: Cluster, scan: Scan, video: Video) returns (res: Result<Occurrence, OccurrenceError>)
    requires cluster.detections != [] && ProperScene(video.scene)
    requires EncodedAuthorityOf(cluster, video.frameCount).Some? && InVideo(Representative(cluster).frame, video.frameCount) ==>
      TrackReaches(EncodedAuthorityOf(cluster, video.frameCount).value, Representative(cluster).frame)
    ensures Proposed(res, cluster, scan, video)
  {
    hide EncodedAuthorityOf, TrackReaches, TargetOf, Settles, Emitted;
    var target := TargetOf(video.scene.script, cluster, scan.correction);
    if target.Err? {
      return Err(BadCorrection(target.error));
    }
    var settled := SettleFor(cluster, scan, target.value, video);
    SettledHasMatches(settled, cluster, scan, target.value, video);
    if settled.Err? {
      return Err(Unsettled(settled.error));
    }
    var occurrence := EmitOccurrence(video.scene, settled.value.0, settled.value.1, scan.suggested);
    res := if occurrence.Err? then Err(NotEmitted(occurrence.error)) else Ok(occurrence.value);
  }

  lemma SettledHasMatches(settled: Result<(Window, string), DecisionError>, cluster: Cluster, scan: Scan, target: Target, video: Video)
    requires cluster.detections != [] && Settles(settled, cluster, scan, target, video)
    ensures settled.Ok? ==> settled.value.0.matches != []
  {
    hide OutcomeOf, WithText, GeometryOf, Holds;
  }

  /** Its window and text, with a scanner of its own. */
  method SettleFor(cluster: Cluster, scan: Scan, target: Target, video: Video) returns (res: Result<(Window, string), DecisionError>)
    requires cluster.detections != []
    requires EncodedAuthorityOf(cluster, video.frameCount).Some? && InVideo(Representative(cluster).frame, video.frameCount) ==>
      TrackReaches(EncodedAuthorityOf(cluster, video.frameCount).value, Representative(cluster).frame)
    ensures Settles(res, cluster, scan, target, video)
  {
    hide EncodedAuthorityOf, TrackReaches, Holds, GeometryOf, AgreedText, Representative, AnyConfirmed, ValidBox, WindowOutcome, MatchIn,
         Strip;
    var script, ratio := video.scene.script, video.similarity.ratio;
    var probe := (f: int) => MatchIn(script, ratio, target, scan.images(f), f);
    forall f | probe(f).Some?
      ensures SoundMatch(probe(f).value, f)
    {
      MatchIsSound(script, ratio, target, scan.images(f), f);
    }
    var s := new SourceScanner(video.frameCount, probe, scan.loads);
    ghost var window, seeds;
    res, window, seeds := ProposeOccurrence(s, cluster, video.scene.timeline, video.scene.encoded, video.preflight, video.similar,
                                            ShownText(scan), Strip(scan.correction));
    OutcomeSettles(res, window, s.matchCache, s.Sees, seeds, cluster, scan, target, video);
  }

  lemma OutcomeSettles(res: Result<(Window, string), DecisionError>, window: Result<Window, DecisionError>, cache: Cache,
                       sees: int -> Option<Match>, seeds: seq<Match>, cluster: Cluster, scan: Scan, target: Target, video: Video)
    requires cluster.detections != [] && OutcomeOf(window, cache, sees, seeds, cluster, scan, target, video)
    requires res == WithText(window, Strip(scan.correction))
    requires res.Ok? ==> HoldsItsFrame(res.value.0, cluster, video.frameCount)
    ensures Settles(res, cluster, scan, target, video)
  {
    hide OutcomeOf, AgreedText, HoldsItsFrame, Strip;
  }

  // ----- Which occurrences hold their frame -----

  /** The occurrence was emitted for this window, which is around the representative frame. */
  ghost predicate EmittedFrom(o: Occurrence, w: Window, text: string, cluster: Cluster, scan: Scan, video: Video)
    requires ProperScene(video.scene)
  {
    HoldsItsFrame(w, cluster, video.frameCount) && Emitted(video.scene, w, text, scan.suggested) == Ok(o)
  }

  lemma ProposedIsEmitted(o: Occurrence, cluster: Cluster, scan: Scan, video: Video) returns (w: Window, text: string)
    requires cluster.detections != [] && ProperScene(video.scene) && Proposed(Ok(o), cluster, scan, video)
    ensures EmittedFrom(o, w, text, cluster, scan, video)
  {
    hide TargetOf, OutcomeOf, WithText, Emitted, GeometryOf, Holds;
    var target := TargetOf(video.scene.script, cluster, scan.correction).value;
    var settled :| Settles(settled, cluster, scan, target, video) && Ok(o) == Emission(settled, scan, video.scene);
    w, text := settled.value.0, settled.value.1;
  }

  /**
   * The fate of a proposed occurrence whose representative frame is in the video. It stems from a window around that frame;
   * it lies in the video exactly when the subtitle that window overlaps, if any, ends no later than the window, and holds the
   * frame exactly when that subtitle ends no later than the frame.
   */
  lemma WhenOccurrenceHolds(o: Occurrence, cluster: Cluster, scan: Scan, video: Video) returns (w: Window, text: string)
    requires cluster.detections != [] && ProperScene(video.scene) && Proposed(Ok(o), cluster, scan, video)
    requires InVideo(Representative(cluster).frame, video.frameCount)
    ensures EmittedFrom(o, w, text, cluster, scan, video)
    ensures var r, target := Representative(cluster).frame, TargetRow(video.scene, w, text);
      && Holds(w.start, w.end, r, video.frameCount) && o.end == w.end && ValidBox(o.geometry)
      && (0 <= o.start <= o.end < video.frameCount <==> (target.Some? ==> CutEnd(target.value) <= w.end))
      && (Holds(o.start, o.end, r, video.frameCount) <==> (target.Some? ==> CutEnd(target.value) <= r))
      && (target.Some? && OneRowPerId(video.scene.timeline) ==>
            o.start == if CutEnd(target.value) != 0 then CutEnd(target.value) else w.start)
  {
    hide Proposed, Emitted, Holds, GeometryOf, Representative, ValidBox, TargetRow;
    w, text := ProposedIsEmitted(o, cluster, scan, video);
    EmittedWindow(video.scene, w, text, scan.suggested);
    WhenEmittedHolds(video.scene, w, text, scan.suggested, Representative(cluster).frame, video.frameCount);
  }

  /** No rendered subtitle ends after the frame. */
  predicate EndsBy(scene: Scene, r: int) {
    forall i :: 0 <= i < |scene.timeline| && Rendered(scene, scene.timeline[i].textId) ==> CutEnd(scene.timeline[i]) <= r
  }

  /** So every occurrence holds its frame in output that is not encoded, and where no rendered subtitle ends after the frame. */
  lemma OccurrenceHolds(o: Occurrence, cluster: Cluster, scan: Scan, video: Video)
    requires cluster.detections != [] && ProperScene(video.scene) && Proposed(Ok(o), cluster, scan, video)
    requires InVideo(Representative(cluster).frame, video.frameCount)
    requires !video.scene.encoded || EndsBy(video.scene, Representative(cluster).frame)
    ensures Holds(o.start, o.end, Representative(cluster).frame, video.frameCount)
  {
    hide Proposed, Emitted, Holds, GeometryOf, Representative, ValidBox, TargetRow, EmittedFrom;
    var w, text := WhenOccurrenceHolds(o, cluster, scan, video);
    EmittedHasMatches(o, w, text, cluster, scan, video);
    TargetIs(video.scene, w, text);
    TargetIsRendered(video.scene, w, text);
  }

  lemma EmittedHasMatches(o: Occurrence, w: Window, text: string, cluster: Cluster, scan: Scan, video: Video)
    requires ProperScene(video.scene) && EmittedFrom(o, w, text, cluster, scan, video)
    ensures w.matches != []
  {
  }

  lemma TargetIsRendered(scene: Scene, w: Window, text: string)
    requires ProperScene(scene) && w.matches != []
    ensures TargetRow(scene, w, text).Some? ==>
      var target := TargetRow(scene, w, text).value;
      scene.encoded && Rendered(scene, target.textId) && exists i :: 0 <= i < |scene.timeline| && scene.timeline[i] == target
  {
    hide TargetRow, Overlaps, Rendered, ShowsText;
    TargetIs(scene, w, text);
  }

  // ----- The binding alone -----

  const WHOLE := RawGeometry(Absent, Absent, Number(0.5), Number(0.5))

  function ZeroEndDetection(frame: int, neighbour: int): Detection {
    Detection(frame, "a", 0.9, WHOLE, Confirmation(true, Some(neighbour), "a", 0.9, WHOLE))
  }

  const ANY_TEXT := Script((s: string) => s, (s: string) => true)

  const ALIKE := Similarity((a: string, b: string) => 1.0)

  const ZERO_END := Reviewed("a", "a", WHOLE, Value(5), Value(0), Missing)

  /** An object from 5 to 0, which the normalization never stores, is bound to a dense track that misses its frame 5. */
  lemma ZeroEndMissesTheAnchor()
    ensures var r := Bound(ANY_TEXT, ALIKE, [ZeroEndDetection(5, 4), ZeroEndDetection(5, 6)], [ZERO_END]);
      && r.Ok? && |r.value| == 1
      && var track := EncodedAuthorityOf(r.value[0], 100);
         r.value[0].detections != [] && track.Some? && track.value.dense && !TrackReaches(track.value, Representative(r.value[0]).frame)
  {
    hide *;
    var detections := [ZeroEndDetection(5, 4), ZeroEndDetection(5, 6)];
    ZeroEndBinds(detections);
    BoundOne(ANY_TEXT, ALIKE, detections, ZERO_END);
    ZeroEndTrack(ClusterFor(ANY_TEXT, ALIKE, ZERO_END, detections));
  }

  lemma BoundOne(script: Script, similarity: Similarity, detections: seq<Detection>, review: Reviewed)
    requires Bindable(script, review) && ClusterFor(script, similarity, review, detections).detections != []
    ensures Bound(script, similarity, detections, [review]) == Ok([ClusterFor(script, similarity, review, detections)])
  {
    hide Bindable, ClusterFor;
    assert [review][..|[review]| - 1] == [];
    assert [] + [ClusterFor(script, similarity, review, detections)] == [ClusterFor(script, similarity, review, detections)];
  }

  /** When every detection is trimmed evidence and they are in order, the cluster holds just them. */
  lemma {:induction false} AllEvidence(script: Script, similarity: Similarity, review: Reviewed, anchor: Rect, detections: seq<Detection>)
    requires forall d :: d in detections ==> IsEvidence(script, similarity, review, anchor, d) && Trimmed(d) == d
    ensures EvidenceFor(script, similarity, review, anchor, detections) == detections
  {
    hide IsEvidence, Strip;
    if detections != [] {
      AllEvidence(script, similarity, review, anchor, detections[..|detections| - 1]);
    }
  }

  lemma ZeroEndIsEvidence(neighbour: int)
    ensures ReadRect(WHOLE) == Ok(Rect(0.0, 0.0, 0.5, 0.5))
    ensures Bindable(ANY_TEXT, ZERO_END) && ANY_TEXT.signature(Strip("a")) == "a" && Trimmed(ZeroEndDetection(5, neighbour)).text == "a"
    ensures IsEvidence(ANY_TEXT, ALIKE, ZERO_END, Rect(0.0, 0.0, 0.5, 0.5), ZeroEndDetection(5, neighbour))
  {
    assert Strip("a") == "a";
    hide Overlap, Strip, Contains, Min;
    ReadRectIsProper(WHOLE);
    assert SameText(ALIKE, "a", "a");
  }

  lemma ZeroEndBinds(detections: seq<Detection>)
    requires detections == [ZeroEndDetection(5, 4), ZeroEndDetection(5, 6)]
    ensures Bindable(ANY_TEXT, ZERO_END)
    ensures ClusterFor(ANY_TEXT, ALIKE, ZERO_END, detections)
         == Cluster("a", Rect(0.0, 0.0, 0.5, 0.5), detections, ReviewObject(Some(WHOLE), Some(5), Some(0)))
  {
    ZeroEndIsEvidence(4);
    ZeroEndIsEvidence(6);
    hide IsEvidence, Strip, EvidenceFor, ReadRect, Sort, Bindable;
    AllEvidence(ANY_TEXT, ALIKE, ZERO_END, Rect(0.0, 0.0, 0.5, 0.5), detections);
    SortOfSorted(detections, ByFrame);
  }

  lemma ZeroEndTrack(c: Cluster)
    requires c == Cluster("a", Rect(0.0, 0.0, 0.5, 0.5), [ZeroEndDetection(5, 4), ZeroEndDetection(5, 6)],
                          ReviewObject(Some(WHOLE), Some(5), Some(0)))
    ensures var track := EncodedAuthorityOf(c, 100);
      track.Some? && track.value.dense && !TrackReaches(track.value, Representative(c).frame)
  {
    var detections := c.detections;
    ZeroEndFrames(detections);
    SameGeometryIsStable(detections[0], AnchorOf(c).value);
    SameGeometryIsStable(detections[1], AnchorOf(c).value);
    ZeroEndDense();
    assert MostConfident(detections) == 0;
    assert AuthorityWindow(c.review, [4, 5, 6], true, 100) == (5, 0);
    hide StableDetection, DenseTrack, EvidenceFrames, ConfirmedCount;
  }

  lemma FramesOfPair(a: Detection, b: Detection, frameCount: int)
    requires ConfirmedInVideo(a, frameCount) && ConfirmedInVideo(b, frameCount)
    requires InVideo(a.frame, frameCount) && InVideo(b.frame, frameCount)
    ensures ObservedFrames([a, b], frameCount) == [a.frame, b.frame]
    ensures NeighbourFrames([a, b], frameCount) == [a.confirmation.frame.value, b.confirmation.frame.value]
    ensures ConfirmedCount([a, b]) == 2
  {
    hide InVideo, Abs;
    assert [a, b][..1] == [a] && [a][..0] == [];
    assert ObservedFrames([a], frameCount) == [a.frame];
    assert NeighbourFrames([a], frameCount) == [a.confirmation.frame.value];
    assert ConfirmedCount([a]) == 1;
    assert [a, b][..|[a, b]| - 1] == [a];
  }

  lemma ZeroEndFrames(detections: seq<Detection>)
    requires detections == [ZeroEndDetection(5, 4), ZeroEndDetection(5, 6)]
    ensures EvidenceFrames(detections, 100) == [4, 5, 6] && ConfirmedCount(detections) == 2
  {
    FramesOfPair(ZeroEndDetection(5, 4), ZeroEndDetection(5, 6), 100);
    assert [5, 5] + [4, 6] == [5, 5, 4, 6];
    assert [5, 5, 4, 6][1..] == [5, 4, 6] && [5, 4, 6][1..] == [4, 6] && [4, 6][1..] == [6];
    assert SortedDistinct([6]) == [6] && SortedDistinct([4, 6]) == [4, 6];
    assert SortedDistinct([5, 4, 6]) == [4, 5, 6];
  }

  lemma ProperAgreesWithItself(geometry: RawGeometry)
    requires ReadRect(geometry).Ok?
    ensures var r := ReadRect(geometry).value; Overlap(r, r) == 1.0 && AreaSimilarity(r, r) == 1.0
  {
    ReadRectIsProper(geometry);
    var r := ReadRect(geometry).value;
    hide Overlap;
    AreaPositive(r);
    DivideUnit(Area(r), Area(r));
  }

  lemma SameGeometryIsStable(d: Detection, anchor: Rect)
    requires ReadRect(d.geometry) == Ok(anchor)
    ensures StableDetection(d, anchor)
  {
    ProperAgreesWithItself(d.geometry);
    hide Overlap, AreaSimilarity, ReadRect;
  }

  lemma ZeroEndDense()
    ensures DenseTrack([4, 5, 6], 2, 2)
  {
    assert [4, 5, 6][1..] == [5, 6];
  }
}
