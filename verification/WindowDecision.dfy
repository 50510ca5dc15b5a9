/** Choosing the frame window of one residual occurrence. */
module WindowDecision {
  import opened Prelude
  import opened Geometry
  import opened Median
  import opened FrameScan
  import opened SourceScan
  import opened ResidualEvidence

  const SCAN_MARGIN := 30
  const MAX_SCAN_SAMPLES := 120
  const MAX_FLASH_SPAN := 12

  datatype DecisionError =
    | NoFrameAuthority
    | NoTimelineWindow(timeline: TimelineError)
    | SourceConfirmationFailed(run: RunError)
    | NoBoundedEncodedGeometry
    | UnstableInferredBoundary
    | UnstableSourceBoundary
    | FlashWindowTooWide
    | AmbiguousText

  /** How the window was settled: kept as it stood, inferred from source hits, or padded around a short flash. */
  datatype Path = Kept | Inferred | Flash

  datatype Window = Window(start: int, end: int, matches: seq<Match>, path: Path)

  function BoxesOfMatches(matches: seq<Match>): (r: seq<Box>)
    ensures |r| == |matches|
    ensures forall i :: 0 <= i < |r| ==> r[i] == matches[i].geometry
  {
    if matches == [] then [] else [matches[0].geometry] + BoxesOfMatches(matches[1..])
  }

  /** The geometry proposed with a window. */
  function GeometryOf(w: Window): Box
    requires w.matches != []
  {
    MedianBox(BoxesOfMatches(w.matches))
  }

  function FlashPadding(hits: nat): int { if hits == 1 then 2 else 1 }

  function PaddedRange(lo: int, hi: int, hits: nat, frameCount: int): (int, int) {
    (Max(0, lo - FlashPadding(hits)), Min(frameCount - 1, hi + FlashPadding(hits)))
  }

  function RequiredHits(preflight: bool, minEncodedHits: nat): nat {
    if preflight then 2 else minEncodedHits
  }

  function CountWithin(frames: seq<int>, lo: int, hi: int): nat {
    if frames == [] then 0 else (if lo <= frames[0] <= hi then 1 else 0) + CountWithin(frames[1..], lo, hi)
  }

  /** In the video, and around the frame `r`. */
  predicate Holds(start: int, end: int, r: int, frameCount: int) {
    0 <= start <= r <= end < frameCount
  }

  // ----- Windows that need no source inference -----

  function KeepOrPad(start: int, end: int, hits: seq<int>, scanFrames: seq<int>, frameCount: int, encoded: bool, preflight: bool,
                     minEncodedHits: nat, track: Option<EncodedAuthority>): Result<(int, int, Path), DecisionError>
    requires minEncodedHits >= 1
  {
    var density := Ratio(|hits|, CountWithin(scanFrames, start, end));
    if hits == [] || density < 0.80 || hits[0] != start || Last(hits) != end then
      if !(encoded || preflight) || |hits| < RequiredHits(preflight, minEncodedHits) then Err(UnstableSourceBoundary)
      else
        var first, last := Least(hits[0], hits), Greatest(hits[0], hits);
        if last - first > MAX_FLASH_SPAN && track.None? then Err(FlashWindowTooWide)
        else
          var (lo, hi) := if track.Some? then (track.value.start, track.value.end) else (first, last);
          var (a, b) := PaddedRange(lo, hi, |hits|, frameCount);
          Ok((a, b, Flash))
    else Ok((start, end, Kept))
  }

  /** Without an encoded track, hits that end where the window ends settle a window in the video around the anchor. */
  lemma KeptWindowHolds(start: int, end: int, hits: seq<int>, scanFrames: seq<int>, frameCount: int, encoded: bool,
                        preflight: bool, minEncodedHits: nat, r: int)
    requires minEncodedHits >= 1
    requires hits != [] ==> hits[0] == start && Last(hits) == end
    requires forall f :: f in hits ==> InVideo(f, frameCount)
    requires start <= r <= end
    ensures var settled := KeepOrPad(start, end, hits, scanFrames, frameCount, encoded, preflight, minEncodedHits, None);
      settled.Ok? ==> hits != [] && Holds(settled.value.0, settled.value.1, r, frameCount)
  {
    if hits != [] {
      assert hits[0] in hits && Last(hits) in hits;
    }
  }

  /** The exact range a reviewed encoded track must reach for its window to hold the anchor. */
  predicate TrackReaches(track: EncodedAuthority, r: int) {
    track.start - 1 <= r <= track.end + 1
  }

  lemma TrackWindowHolds(track: EncodedAuthority, frameCount: int, preflight: bool, minEncodedHits: nat, r: int)
    requires minEncodedHits >= 1 && |track.hitFrames| >= 2 && !preflight && minEncodedHits <= 2
    requires StrictlyAscending(track.hitFrames) && forall f :: f in track.hitFrames ==> InVideo(f, frameCount)
    requires r in track.hitFrames
    ensures var settled := KeepOrPad(track.start, track.end, track.hitFrames, track.hitFrames, frameCount, true, preflight,
                                     minEncodedHits, Some(track));
      && settled.Ok?
      && (Holds(settled.value.0, settled.value.1, r, frameCount) <==> TrackReaches(track, r))
  {
    var hits := track.hitFrames;
    TrackSettles(track, frameCount, preflight, minEncodedHits);
    assert hits[0] in hits && Last(hits) in hits && InVideo(r, frameCount);
    assert hits[0] <= r <= Last(hits) by {
      var i :| 0 <= i < |hits| && hits[i] == r;
    }
  }

  /** A track keeps its own window when its observations end there, and is padded by one frame otherwise. */
  lemma TrackSettles(track: EncodedAuthority, frameCount: int, preflight: bool, minEncodedHits: nat)
    requires 1 <= minEncodedHits <= 2 && |track.hitFrames| >= 2
    ensures var settled := KeepOrPad(track.start, track.end, track.hitFrames, track.hitFrames, frameCount, true, preflight,
                                     minEncodedHits, Some(track));
      && settled.Ok?
      && (settled.value.0, settled.value.1) ==
         if track.start == track.hitFrames[0] && track.end == Last(track.hitFrames) then (track.start, track.end)
         else (Max(0, track.start - 1), Min(frameCount - 1, track.end + 1))
  {
    var hits := track.hitFrames;
    CountWithinBounded(hits, track.start, track.end);
    FullRatio(|hits|, CountWithin(hits, track.start, track.end));
  }

  lemma {:induction false} CountWithinBounded(frames: seq<int>, lo: int, hi: int)
    ensures CountWithin(frames, lo, hi) <= |frames|
  {
    if frames != [] {
      CountWithinBounded(frames[1..], lo, hi);
    }
  }

  lemma FullRatio(n: nat, d: nat)
    requires n >= d && n >= 1
    ensures Ratio(n, d) >= 0.80
  {
    var m := Max(1, d) as real;
    QuotientOrder(n as real, 1.0, m);
  }

  // ----- Windows inferred from source hits -----

  /** `lo..hi` starts and ends on hits, around `r`, and the frames just outside are misses or the ends of the video. */
  ghost predicate HitBounded(cache: Cache, sees: int -> Option<Match>, frameCount: int, lo: int, hi: int, r: int) {
    && Holds(lo, hi, r, frameCount)
    && Hit(cache, sees, frameCount, lo) && Hit(cache, sees, frameCount, hi)
    && !Hit(cache, sees, frameCount, lo - 1)
    && !Hit(cache, sees, frameCount, hi + 1)
  }

  ghost predicate PaddedFlash(w: Window, cache: Cache, sees: int -> Option<Match>, frameCount: int, r: int, lo: int, hi: int) {
    && HitBounded(cache, sees, frameCount, lo, hi, r)
    && hi - lo <= MAX_FLASH_SPAN
    && (w.start, w.end) == PaddedRange(lo, hi, |CachedHits(cache, lo, hi)|, frameCount)
  }

  /** What an inferred window promises: dense evidence between two misses, or a short padded flash. */
  ghost predicate InferredShape(w: Window, cache: Cache, sees: int -> Option<Match>, frameCount: int, r: int) {
    && w.matches == CachedHits(cache, w.start, w.end)
    && (w.path == Inferred ==>
         && HitBounded(cache, sees, frameCount, w.start, w.end, r)
         && Ratio(|w.matches|, CachedCount(cache, w.start, w.end)) >= 0.80)
    && (w.path == Flash ==> exists lo, hi :: PaddedFlash(w, cache, sees, frameCount, r, lo, hi))
    && w.path != Kept
  }

  lemma InferredWindowHolds(w: Window, cache: Cache, sees: int -> Option<Match>, frameCount: int, r: int)
    requires InferredShape(w, cache, sees, frameCount, r)
    ensures Holds(w.start, w.end, r, frameCount)
  {
  }

  /** Growing a run of hits around the anchor ends on hits and stops at misses. */
  lemma GrownRunIsBounded(cache: Cache, sees: int -> Option<Match>, frameCount: int, hits: seq<int>, run: seq<int>, gap: int,
                          r: int, start: int, end: int, probed: set<int>)
    requires IsolatedRun(hits, run, gap) && r in run
    requires forall f :: f in hits ==> Hit(cache, sees, frameCount, f)
    requires MaximalExtension(f => Hit(cache, sees, frameCount, f), frameCount, run[0], Last(run), start, end)
    ensures HitBounded(Probed(cache, sees, frameCount, probed), sees, frameCount, start, end, r)
  {
    var hit := f => Hit(cache, sees, frameCount, f);
    RunBounds(hits, run, gap);
    assert Hit(cache, sees, frameCount, run[0]) && Hit(cache, sees, frameCount, Last(run));
    assert hit(start) by { assert start < run[0] ==> hit(start); }
    assert hit(end) by { assert Last(run) < end ==> hit(end); }
    assert start > 0 ==> !hit(start - 1);
    assert end < frameCount - 1 ==> !hit(end + 1);
  }

  /** How a grown window, whose ends are hits, is settled: dense evidence keeps it, a short flash is padded, the rest fails. */
  function SettledWindow(cache: Cache, frameCount: int, start: int, end: int, encoded: bool, preflight: bool, minEncodedHits: nat)
    : Result<Window, DecisionError>
  {
    var hits := CachedHits(cache, start, end);
    if Ratio(|hits|, CachedCount(cache, start, end)) >= 0.80 then Ok(Window(start, end, hits, Inferred))
    else if !(encoded || preflight) || |hits| < RequiredHits(preflight, minEncodedHits) then Err(UnstableInferredBoundary)
    else if end - start > MAX_FLASH_SPAN then Err(FlashWindowTooWide)
    else
      var (lo, hi) := PaddedRange(start, end, |hits|, frameCount);
      Ok(Window(lo, hi, CachedHits(cache, lo, hi), Flash))
  }

  /** The gap the run inference tolerates: one less than the widest sample step, and 1 at least. */
  function RunGap(scanFrames: seq<int>): int { Max(1, MaxSampleGap(scanFrames) - 1) }

  /** `start..end` is the maximal extension of the one run of hits around the anchor. */
  ghost predicate GrownRun(cache: Cache, sees: int -> Option<Match>, frameCount: int, hits: seq<int>, gap: int, r: int, start: int, end: int) {
    exists run :: IsolatedRun(SortedDistinct(hits), run, gap) && r in run
      && MaximalExtension(f => Hit(cache, sees, frameCount, f), frameCount, run[0], Last(run), start, end)
  }

  /** The whole outcome of the inference: an error without the anchor, else the settled extension of its run. */
  ghost predicate InferredFrom(res: Result<Window, DecisionError>, cache: Cache, sees: int -> Option<Match>, frameCount: int,
                               scanFrames: seq<int>, hits: seq<int>, r: int, encoded: bool, preflight: bool, minEncodedHits: nat)
  {
    if r !in hits then res == Err(SourceConfirmationFailed(AnchorNotConfirmed))
    else exists start, end ::
      && GrownRun(cache, sees, frameCount, hits, RunGap(scanFrames), r, start, end)
      && res == SettledWindow(cache, frameCount, start, end, encoded, preflight, minEncodedHits)
  }

  /** Infers the window from the run of source hits around the anchor, grown to its boundary misses. */
  method InferWindow(s: SourceScanner, scanFrames: seq<int>, hits: seq<int>, r: int, encoded: bool, preflight: bool, minEncodedHits: nat)
    returns (res: Result<Window, DecisionError>)
    requires s.Valid() && minEncodedHits >= 1
    requires forall f :: f in hits ==> CachedHit(s.matchCache, f)
    modifies s
    ensures s.Valid() && s.frames >= old(s.frames)
    ensures InferredFrom(res, s.matchCache, s.Sees, s.frameCount, scanFrames, hits, r, encoded, preflight, minEncodedHits)
    ensures res.Ok? ==>
      && InferredShape(res.value, s.matchCache, s.Sees, s.frameCount, r)
      && r in FramesOf(res.value.matches)
      && (res.value.path == Flash ==> encoded || preflight)
    ensures forall f :: Hit(s.matchCache, s.Sees, s.frameCount, f) == Hit(old(s.matchCache), s.Sees, s.frameCount, f)
  {
    ghost var cache0 := s.matchCache;
    var gap := RunGap(scanFrames);
    var inferred := InferContiguousHitWindow(hits, r, gap);
    if inferred.Err? {
      return Err(SourceConfirmationFailed(inferred.error));
    }
    var run := inferred.value;
    SortedDistinctIs(hits);
    ghost var ordered := SortedDistinct(hits);
    assert forall f :: f in ordered ==> Hit(cache0, s.Sees, s.frameCount, f);
    RunBounds(ordered, run, gap);
    var refined := s.RefineHitBoundaries(run[0], Last(run));
    assert refined.beforeConfirmed && refined.afterConfirmed;
    GrownRunIsBounded(cache0, s.Sees, s.frameCount, ordered, run, gap, r, refined.start, refined.end, Elements(refined.probed));
    GrownEndsCached(cache0, s.Sees, s.frameCount, run[0], Last(run), refined);
    s.HitsUnchanged(cache0, s.matchCache, Elements(refined.probed));
    RunIsGrown(cache0, s.matchCache, s.Sees, s.frameCount, hits, run, gap, r, refined);
    res := SettleInferred(s.matchCache, s.Sees, s.frameCount, refined, encoded, preflight, minEncodedHits, r);
  }

  lemma RunIsGrown(cache0: Cache, cache: Cache, sees: int -> Option<Match>, frameCount: int, hits: seq<int>, run: seq<int>, gap: int,
                   r: int, refined: Refined)
    requires IsolatedRun(SortedDistinct(hits), run, gap) && r in run
    requires forall f :: Hit(cache, sees, frameCount, f) == Hit(cache0, sees, frameCount, f)
    requires MaximalExtension(f => Hit(cache0, sees, frameCount, f), frameCount, run[0], Last(run), refined.start, refined.end)
    ensures GrownRun(cache, sees, frameCount, hits, gap, r, refined.start, refined.end)
  {
    hide Hit, IsolatedRun;
    SameExtension(f => Hit(cache0, sees, frameCount, f), f => Hit(cache, sees, frameCount, f), frameCount,
                  run[0], Last(run), refined.start, refined.end);
  }

  lemma SameExtension(a: int -> bool, b: int -> bool, frameCount: int, start: int, end: int, grownStart: int, grownEnd: int)
    requires forall f: int :: a(f) == b(f)
    requires MaximalExtension(a, frameCount, start, end, grownStart, grownEnd)
    ensures MaximalExtension(b, frameCount, start, end, grownStart, grownEnd)
  {
  }

  lemma {:induction false} DownHas(hi: int, lo: int, f: int)
    ensures f in Down(hi, lo) <==> lo <= f <= hi
    decreases hi - lo
  {
    if lo <= hi {
      DownHas(hi, lo + 1, f);
    }
  }

  lemma {:induction false} UpHas(lo: int, hi: int, f: int)
    ensures f in Up(lo, hi) <==> lo <= f <= hi
    decreases hi - lo
  {
    if lo <= hi {
      UpHas(lo, hi - 1, f);
    }
  }

  /** After a refinement both ends of the grown window are cached hits. */
  lemma GrownEndsCached(cache: Cache, sees: int -> Option<Match>, frameCount: int, start: int, end: int, refined: Refined)
    requires CachedHit(cache, start) && CachedHit(cache, end)
    requires MaximalExtension(f => Hit(cache, sees, frameCount, f), frameCount, start, end, refined.start, refined.end)
    requires refined.probed == ProbesOf(start, end, frameCount, refined.start, refined.end)
    ensures CachedHit(Probed(cache, sees, frameCount, Elements(refined.probed)), refined.start)
    ensures CachedHit(Probed(cache, sees, frameCount, Elements(refined.probed)), refined.end)
  {
    var lower, upper := Down(start - 1, Max(0, refined.start - 1)), Up(end + 1, Min(frameCount - 1, refined.end + 1));
    DownHas(start - 1, Max(0, refined.start - 1), refined.start);
    UpHas(end + 1, Min(frameCount - 1, refined.end + 1), refined.end);
    var hit := f => Hit(cache, sees, frameCount, f);
    assert refined.start < start ==> hit(refined.start) && refined.start >= 0;
    assert end < refined.end ==> hit(refined.end) && refined.end < frameCount;
    assert refined.probed == lower + upper;
  }

  lemma FlashEnds(cache: Cache, frameCount: int, lo: int, hi: int)
    requires SoundCache(cache, frameCount) && lo <= hi && CachedHit(cache, lo) && CachedHit(cache, hi)
    ensures var frames := FramesOf(CachedHits(cache, lo, hi));
      frames != [] && Least(frames[0], frames) == lo && Greatest(frames[0], frames) == hi
  {
    var frames := FramesOf(CachedHits(cache, lo, hi));
    CachedHitsFrames(cache, frameCount, lo, hi, lo);
    CachedHitsFrames(cache, frameCount, lo, hi, hi);
    assert frames[0] in frames;
    forall f | f in frames
      ensures lo <= f <= hi
    {
      CachedHitsFrames(cache, frameCount, lo, hi, f);
    }
  }

  method SettleInferred(cache: Cache, ghost sees: int -> Option<Match>, frameCount: int, refined: Refined, encoded: bool,
                        preflight: bool, minEncodedHits: nat, r: int)
    returns (res: Result<Window, DecisionError>)
    requires SoundCache(cache, frameCount) && minEncodedHits >= 1
    requires refined.beforeConfirmed && refined.afterConfirmed
    requires HitBounded(cache, sees, frameCount, refined.start, refined.end, r) && CachedHit(cache, r)
    requires CachedHit(cache, refined.start) && CachedHit(cache, refined.end)
    ensures res == SettledWindow(cache, frameCount, refined.start, refined.end, encoded, preflight, minEncodedHits)
    ensures res.Ok? ==>
      && InferredShape(res.value, cache, sees, frameCount, r)
      && r in FramesOf(res.value.matches)
      && (res.value.path == Flash ==> encoded || preflight)
  {
    var inferredHits := CachedHits(cache, refined.start, refined.end);
    var density := Ratio(|inferredHits|, CachedCount(cache, refined.start, refined.end));
    var start, end, path := refined.start, refined.end, Inferred;
    if density < 0.80 || !refined.beforeConfirmed || !refined.afterConfirmed {
      if !(encoded || preflight) || |inferredHits| < RequiredHits(preflight, minEncodedHits) {
        return Err(UnstableInferredBoundary);
      }
      var frames := FramesOf(inferredHits);
      var flashStart, flashEnd := Least(frames[0], frames), Greatest(frames[0], frames);
      FlashEnds(cache, frameCount, refined.start, refined.end);
      if flashEnd - flashStart > MAX_FLASH_SPAN {
        return Err(FlashWindowTooWide);
      }
      path := Flash;
      var padded := PaddedRange(flashStart, flashEnd, |inferredHits|, frameCount);
      start, end := padded.0, padded.1;
    }
    var w := Window(start, end, CachedHits(cache, start, end), path);
    assert path == Flash ==> PaddedFlash(w, cache, sees, frameCount, r, refined.start, refined.end);
    CachedHitsFrames(cache, frameCount, start, end, r);
    res := Ok(w);
  }

  // ----- The whole decision -----

  predicate AnyConfirmed(detections: seq<Detection>) {
    exists i :: 0 <= i < |detections| && detections[i].confirmation.onAdjacentFrame
  }

  /** The encoded track is consulted only for temporally confirmed residuals of an encoded output. */
  function TrackOf(cluster: Cluster, encoded: bool, frameCount: int): Option<EncodedAuthority> {
    if encoded && AnyConfirmed(cluster.detections) then EncodedAuthorityOf(cluster, frameCount) else None
  }

  function DetectionFrames(detections: seq<Detection>): (r: seq<int>)
    ensures |r| == |detections| && forall i :: 0 <= i < |r| ==> r[i] == detections[i].frame
  {
    if detections == [] then [] else [detections[0].frame] + DetectionFrames(detections[1..])
  }

  function TrackMatches(frames: seq<int>, text: string, confidence: real, geometry: Box): (r: seq<Match>)
    ensures |r| == |frames|
    ensures forall i :: 0 <= i < |r| ==> r[i] == Match(frames[i], text, confidence, geometry)
  {
    if frames == [] then [] else [Match(frames[0], text, confidence, geometry)] + TrackMatches(frames[1..], text, confidence, geometry)
  }

  /** The window the decision starts from: the dominant Phase-1 window, or a broad one when no row settles it. */
  function InitialWindow(timeline: seq<TimelineRow>, r: int, frameCount: int, fallback: bool): Result<(int, int, bool), DecisionError> {
    match DominantActiveWindow(timeline, r)
    case Ok(w) => Ok((w.start, w.end, false))
    case Err(e) =>
      if e == NoActiveWindow || fallback then Ok((Max(0, r - 30), Min(frameCount - 1, r + 120), true))
      else Err(NoTimelineWindow(e))
  }

  /** The boundary scan always includes the representative frame of the residual. */
  lemma ScanIncludes(startFrame: int, endFrame: int, residualFrames: seq<int>, frameCount: int, r: int)
    requires r in residualFrames && InVideo(r, frameCount)
    ensures var plan := BuildBoundaryScanFrames(startFrame, endFrame, residualFrames, frameCount, [r], SCAN_MARGIN, MAX_SCAN_SAMPLES);
      plan.Ok? && r in plan.value.frames
  {
    ScanPlanIsSound(startFrame, endFrame, residualFrames, frameCount, [r], SCAN_MARGIN, MAX_SCAN_SAMPLES);
    var plan := BuildBoundaryScanFrames(startFrame, endFrame, residualFrames, frameCount, [r], SCAN_MARGIN, MAX_SCAN_SAMPLES).value;
    var observed := ClampAll(residualFrames, 0, frameCount - 1);
    ClampedMembers(residualFrames, 0, frameCount - 1);
    ClampInside(r, 0, frameCount - 1);
    assert r in observed;
    ClampInside(r, plan.start, plan.end);
    assert r in Wanted(startFrame, endFrame, observed, [r], plan.start, plan.end) by {
      assert Wanted(startFrame, endFrame, observed, [r], plan.start, plan.end)[0] == r;
    }
  }

  /** Which matches the decision is made on, and whether they were recovered from preflight evidence. */
  datatype Evidence = Evidence(matches: seq<Match>, scanFrames: seq<int>, preflight: bool)

  /** Every match is a cached hit of the scanner, in frame order unless the two came from preflight evidence. */
  ghost predicate SourceEvidence(e: Evidence, cache: Cache, frameCount: int, r: int) {
    && SoundCache(cache, frameCount)
    && (forall m :: m in e.matches ==> ValidBox(m.geometry))
    && (forall f :: f in FramesOf(e.matches) ==> CachedHit(cache, f))
    && (e.preflight ==> r in FramesOf(e.matches))
  }

  /** The evidence a scan of the planned frames yields; preflight rows replace it when an unencoded residual misses its anchor. */
  ghost function ScannedEvidence(sees: int -> Option<Match>, frameCount: int, startFrame: int, endFrame: int, residualFrames: seq<int>,
                                 r: int, encoded: bool, seeds: seq<Match>): Evidence
  {
    var plan := BuildBoundaryScanFrames(startFrame, endFrame, residualFrames, frameCount, [r], SCAN_MARGIN, MAX_SCAN_SAMPLES);
    if plan.Err? then Evidence([], [], false)
    else
      var matches := CachedHits(Probed(map[], sees, frameCount, Elements(plan.value.frames)), 0, frameCount - 1);
      if r !in FramesOf(matches) && !encoded && seeds != [] then Evidence(seeds, plan.value.frames, true)
      else Evidence(matches, plan.value.frames, false)
  }

  method GatherSourceEvidence(s: SourceScanner, startFrame: int, endFrame: int, residualFrames: seq<int>, r: int,
                              encoded: bool, seeds: seq<Match>)
    returns (e: Evidence)
    requires s.Valid() && s.matchCache == map[] && s.frameCount >= 1 && r in residualFrames
    requires forall m :: m in seeds ==> InVideo(m.frame, s.frameCount) && ValidBox(m.geometry)
    requires seeds != [] ==> r in FramesOf(seeds)
    modifies s
    ensures s.Valid()
    ensures SourceEvidence(e, s.matchCache, s.frameCount, r)
    ensures e == ScannedEvidence(s.Sees, s.frameCount, startFrame, endFrame, residualFrames, r, encoded, seeds)
    ensures e.preflight ==> !encoded && e.matches == seeds
    ensures InVideo(r, s.frameCount) && s.loads(r) ==> r in s.frames
    ensures !e.preflight ==>
      && e.matches == CachedHits(s.matchCache, 0, s.frameCount - 1)
      && s.matchCache == Probed(map[], s.Sees, s.frameCount, Elements(e.scanFrames))
      && (r in FramesOf(e.matches) || encoded || seeds == [])
  {
    hide BuildBoundaryScanFrames, SoundPlan, CachedHits, StrictlyAscending;
    ScanPlanIsSound(startFrame, endFrame, residualFrames, s.frameCount, [r], SCAN_MARGIN, MAX_SCAN_SAMPLES);
    // With a frame in the video and a budget of 120 samples neither scan error can occur.
    var plan := BuildBoundaryScanFrames(startFrame, endFrame, residualFrames, s.frameCount, [r], SCAN_MARGIN, MAX_SCAN_SAMPLES).value;
    if InVideo(r, s.frameCount) {
      ScanIncludes(startFrame, endFrame, residualFrames, s.frameCount, r);
    }
    s.ScanSourceFrames(plan.frames);
    var matches := CachedHits(s.matchCache, 0, s.frameCount - 1);
    CachedHitsValid(s.matchCache, s.frameCount, 0, s.frameCount - 1);
    forall f | f in FramesOf(matches)
      ensures CachedHit(s.matchCache, f)
    {
      CachedHitsFrames(s.matchCache, s.frameCount, 0, s.frameCount - 1, f);
    }
    if r !in FramesOf(matches) && !encoded && seeds != [] {
      s.Seed(seeds);
      return Evidence(seeds, plan.frames, true);
    }
    e := Evidence(matches, plan.frames, false);
  }

  /** The initial window, because the matches start and end exactly there, or a short flash padded around the matches. */
  ghost predicate KeptShape(w: Window, start: int, end: int, frameCount: int) {
    && w.matches != []
    && var frames := FramesOf(w.matches);
    && frames[0] == start && Last(frames) == end
    && if w.path == Flash then
         var lo, hi := Least(frames[0], frames), Greatest(frames[0], frames);
         hi - lo <= MAX_FLASH_SPAN && (w.start, w.end) == PaddedRange(lo, hi, |frames|, frameCount)
       else
         w.path == Kept && (w.start, w.end) == (start, end)
  }

  /** The decision on the gathered evidence, branch by branch. */
  ghost predicate SourceDecision(res: Result<Window, DecisionError>, cache: Cache, sees: int -> Option<Match>, frameCount: int, e: Evidence,
                                 initial: (int, int, bool), r: int, encoded: bool, confirmed: bool)
  {
    var hits := FramesOf(e.matches);
    var minEncodedHits := if confirmed then 1 else 2;
    if (hits == [] || r !in hits) && encoded && confirmed then res == Err(NoBoundedEncodedGeometry)
    else if initial.2 || (hits != [] && (hits[0] != initial.0 || Last(hits) != initial.1)) then
      InferredFrom(res, cache, sees, frameCount, e.scanFrames, hits, r, encoded, e.preflight, minEncodedHits)
    else
      match KeepOrPad(initial.0, initial.1, hits, e.scanFrames, frameCount, encoded, e.preflight, minEncodedHits, None)
      case Err(x) => res == Err(x)
      case Ok((start, end, path)) => res == Ok(Window(start, end, e.matches, path))
  }

  method DecideBySource(s: SourceScanner, residualFrames: seq<int>, initial: (int, int, bool), seeds: seq<Match>, r: int,
                        encoded: bool, confirmed: bool)
    returns (res: Result<Window, DecisionError>)
    requires s.Valid() && s.matchCache == map[] && s.frameCount >= 1 && r in residualFrames
    requires forall m :: m in seeds ==> InVideo(m.frame, s.frameCount) && ValidBox(m.geometry)
    requires seeds != [] ==> r in FramesOf(seeds)
    requires r >= 0 && !initial.2 ==> initial.0 <= r <= initial.1
    modifies s
    ensures s.Valid()
    ensures SourceDecision(res, s.matchCache, s.Sees, s.frameCount,
                           ScannedEvidence(s.Sees, s.frameCount, initial.0, initial.1, residualFrames, r, encoded, seeds),
                           initial, r, encoded, confirmed)
    ensures InVideo(r, s.frameCount) && s.loads(r) ==> r in s.frames
    ensures res.Ok? && InVideo(r, s.frameCount) ==> Holds(res.value.start, res.value.end, r, s.frameCount)
    ensures res.Ok? ==>
      || InferredShape(res.value, s.matchCache, s.Sees, s.frameCount, r)
      || KeptShape(res.value, initial.0, initial.1, s.frameCount)
    ensures res.Ok? ==> res.value.matches != [] && forall m :: m in res.value.matches ==> ValidBox(m.geometry)
  {
    hide KeepOrPad, InferredShape, KeptShape, CachedHits, Least, Greatest, ScannedEvidence, InferredFrom;
    var minEncodedHits := if confirmed then 1 else 2;
    var (start, end, untracked) := initial;
    var evidence := GatherSourceEvidence(s, start, end, residualFrames, r, encoded, seeds);
    var matches, hits := evidence.matches, FramesOf(evidence.matches);
    if (matches == [] || r !in hits) && encoded && confirmed {
      return Err(NoBoundedEncodedGeometry);
    }
    FramesOfMembers(matches);
    var boundaryDiffers := hits != [] && (hits[0] != start || Last(hits) != end);
    if untracked || boundaryDiffers {
      res := InferWindow(s, evidence.scanFrames, hits, r, encoded, evidence.preflight, minEncodedHits);
      if res.Ok? {
        InferredWindowHolds(res.value, s.matchCache, s.Sees, s.frameCount, r);
        CachedHitsValid(s.matchCache, s.frameCount, res.value.start, res.value.end);
      }
    } else {
      res := KeepSourceWindow(s.matchCache, start, end, evidence, s.frameCount, encoded, minEncodedHits, r);
    }
  }

  /** Settles a window whose matches start and end exactly where it does. */
  method KeepSourceWindow(ghost cache: Cache, start: int, end: int, e: Evidence, frameCount: int, encoded: bool, minEncodedHits: nat, r: int)
    returns (res: Result<Window, DecisionError>)
    requires minEncodedHits >= 1 && SourceEvidence(e, cache, frameCount, r)
    requires FramesOf(e.matches) != [] ==> FramesOf(e.matches)[0] == start && Last(FramesOf(e.matches)) == end
    ensures match KeepOrPad(start, end, FramesOf(e.matches), e.scanFrames, frameCount, encoded, e.preflight, minEncodedHits, None)
      case Err(x) => res == Err(x)
      case Ok((lo, hi, path)) => res == Ok(Window(lo, hi, e.matches, path))
    ensures res.Ok? ==> KeptShape(res.value, start, end, frameCount) && res.value.matches != []
    ensures res.Ok? && start <= r <= end ==> Holds(res.value.start, res.value.end, r, frameCount)
  {
    hide KeepOrPad, KeptShape, Least, Greatest;
    var hits := FramesOf(e.matches);
    var settled := KeepOrPad(start, end, hits, e.scanFrames, frameCount, encoded, e.preflight, minEncodedHits, None);
    if settled.Err? {
      return Err(settled.error);
    }
    res := Ok(Window(settled.value.0, settled.value.1, e.matches, settled.value.2));
    KeptSourceWindow(res.value, start, end, e, frameCount, encoded, minEncodedHits);
    if start <= r <= end {
      KeptWindowHolds(start, end, hits, e.scanFrames, frameCount, encoded, e.preflight, minEncodedHits, r);
    }
  }

  lemma KeptSourceWindow(w: Window, start: int, end: int, e: Evidence, frameCount: int, encoded: bool, minEncodedHits: nat)
    requires minEncodedHits >= 1 && w.matches == e.matches
    requires var hits := FramesOf(e.matches);
      && (hits != [] ==> hits[0] == start && Last(hits) == end)
      && KeepOrPad(start, end, hits, e.scanFrames, frameCount, encoded, e.preflight, minEncodedHits, None)
         == Ok((w.start, w.end, w.path))
    ensures KeptShape(w, start, end, frameCount) && w.matches != []
  {
  }

  /** The encoded track settles the window without probing a source frame; only the evidence frame is loaded. */
  method DecideByTrack(s: SourceScanner, track: EncodedAuthority, r: int, text: string, confidence: real)
    returns (w: Window)
    requires s.Valid() && |track.hitFrames| >= 2
    modifies s`frames
    ensures s.Valid()
    ensures s.loads(r) ==> r in s.frames
    ensures FramesOf(w.matches) == track.hitFrames && GeometryOf(w) == track.geometry && ShowsOnly(w.matches, text)
    ensures KeepOrPad(track.start, track.end, track.hitFrames, track.hitFrames, s.frameCount, true, false, 1, Some(track))
         == Ok((w.start, w.end, w.path))
  {
    hide *;
    s.LoadEvidence(r);
    var hits := track.hitFrames;
    TrackMatchesAre(hits, text, confidence, track.geometry);
    TrackShowsOnly(hits, text, confidence, track.geometry);
    TrackSettles(track, s.frameCount, false, 1);
    var (start, end, path) := KeepOrPad(track.start, track.end, hits, hits, s.frameCount, true, false, 1, Some(track)).value;
    w := Window(start, end, TrackMatches(hits, text, confidence, track.geometry), path);
    GeometryIs(w);
  }

  lemma GeometryIs(w: Window)
    requires w.matches != []
    ensures GeometryOf(w) == MedianBox(BoxesOfMatches(w.matches))
  {
  }

  lemma TrackDecision(cluster: Cluster, track: EncodedAuthority, frameCount: int)
    requires EncodedAuthorityOf(cluster, frameCount) == Some(track) && cluster.detections != []
    ensures |track.hitFrames| >= 2 && ValidBox(track.geometry)
    ensures
      var settled := KeepOrPad(track.start, track.end, track.hitFrames, track.hitFrames, frameCount, true, false, 1, Some(track));
      var r := Representative(cluster).frame;
      && settled.Ok?
      && (settled.value.0, settled.value.1) ==
         (if track.start == track.hitFrames[0] && track.end == Last(track.hitFrames) then (track.start, track.end)
          else (Max(0, track.start - 1), Min(frameCount - 1, track.end + 1)))
      && (InVideo(r, frameCount) ==>
           (Holds(settled.value.0, settled.value.1, r, frameCount) <==> TrackReaches(track, r)))
  {
    var r := Representative(cluster).frame;
    AuthorityShape(cluster, frameCount);
    assert InVideo(r, frameCount) ==> r in track.hitFrames;
    hide EncodedAuthorityOf, KeepOrPad, PaddedRange;
    TrackSettles(track, frameCount, false, 1);
    if InVideo(r, frameCount) {
      TrackWindowHolds(track, frameCount, false, 1, r);
    }
  }

  lemma {:induction false} TrackFrames(frames: seq<int>, text: string, confidence: real, geometry: Box)
    ensures FramesOf(TrackMatches(frames, text, confidence, geometry)) == frames
  {
    if frames != [] {
      TrackFrames(frames[1..], text, confidence, geometry);
    }
  }

  lemma TrackShowsOnly(frames: seq<int>, text: string, confidence: real, geometry: Box)
    ensures ShowsOnly(TrackMatches(frames, text, confidence, geometry), text)
  {
  }

  lemma TrackMatchesAre(frames: seq<int>, text: string, confidence: real, geometry: Box)
    requires frames != []
    ensures FramesOf(TrackMatches(frames, text, confidence, geometry)) == frames
    ensures MedianBox(BoxesOfMatches(TrackMatches(frames, text, confidence, geometry))) == geometry
  {
    TrackFrames(frames, text, confidence, geometry);
    MedianOfCopies(BoxesOfMatches(TrackMatches(frames, text, confidence, geometry)), geometry);
  }

  /** The recovered preflight rows: none unless the evidence binds, else the best source row and the confirming neighbour. */
  ghost predicate AreSeeds(seeds: seq<Match>, preflight: Preflight, similar: (string, string) -> real, cluster: Cluster, frameCount: int)
    requires cluster.detections != []
  {
    if !PreflightBinds(preflight, similar, cluster, frameCount) then seeds == []
    else
      var d := Representative(cluster);
      && |seeds| == 2
      && (exists k :: BestSource(similar, d, ReadRect(d.geometry).value, preflight.sourceRows, k)
                      && seeds[0] == SourceMatch(preflight.sourceRows[k]))
      && seeds[1] == Match(d.confirmation.frame.value, d.confirmation.text, d.confirmation.confidence,
                           ReadBox(d.confirmation.geometry).value)
  }

  predicate ShowsOnly(matches: seq<Match>, text: string) { forall i :: 0 <= i < |matches| ==> matches[i].text == text }

  /** The outcome on an encoded track: its frames as matches, one text, its geometry, and the window it settles. */
  ghost predicate TrackOutcome(res: Result<Window, DecisionError>, track: EncodedAuthority, frameCount: int, text: string) {
    && res.Ok? && FramesOf(res.value.matches) == track.hitFrames && res.value.matches != [] && GeometryOf(res.value) == track.geometry
    && ShowsOnly(res.value.matches, text)
    && KeepOrPad(track.start, track.end, track.hitFrames, track.hitFrames, frameCount, true, false, 1, Some(track))
       == Ok((res.value.start, res.value.end, res.value.path))
  }

  /** The outcome without a track: no settled Phase-1 window is fatal unless preflight rows stand in; else the evidence decides. */
  ghost predicate SourceOutcome(res: Result<Window, DecisionError>, cache: Cache, sees: int -> Option<Match>, frameCount: int,
                                cluster: Cluster, timeline: seq<TimelineRow>, encoded: bool, seeds: seq<Match>)
    requires cluster.detections != []
  {
    var r := Representative(cluster).frame;
    match InitialWindow(timeline, r, frameCount, seeds != [])
    case Err(e) => res == Err(e)
    case Ok(initial) =>
      SourceDecision(res, cache, sees, frameCount,
                     ScannedEvidence(sees, frameCount, initial.0, initial.1, DetectionFrames(cluster.detections), r, encoded, seeds),
                     initial, r, encoded, encoded && AnyConfirmed(cluster.detections))
  }

  /**
   * The window of one residual occurrence. Whenever the decision succeeds for a representative frame of the video, the
   * window lies in the video and around that frame, whatever the timeline says. For an arbitrary cluster the one exception
   * is an encoded track that misses the frame by more than one; no cluster of the program has such a track.
   * The proposed geometry is always a valid box, and the representative frame has been loaded for the evidence crop.
   */
  method ProposeWindow(s: SourceScanner, cluster: Cluster, timeline: seq<TimelineRow>, encoded: bool, preflight: Preflight,
                       similar: (string, string) -> real, encodedText: string)
    returns (res: Result<Window, DecisionError>, ghost seeds: seq<Match>)
    requires s.Valid() && s.matchCache == map[] && cluster.detections != []
    modifies s
    ensures s.Valid()
    ensures s.frameCount < 1 ==> res == Err(DecisionError.NoFrameAuthority)
    ensures s.frameCount >= 1 ==> AreSeeds(seeds, preflight, similar, cluster, s.frameCount)
    ensures s.frameCount >= 1 && TrackOf(cluster, encoded, s.frameCount).Some? ==>
      TrackOutcome(res, TrackOf(cluster, encoded, s.frameCount).value, s.frameCount, encodedText)
    ensures s.frameCount >= 1 && TrackOf(cluster, encoded, s.frameCount).None? ==>
      SourceOutcome(res, s.matchCache, s.Sees, s.frameCount, cluster, timeline, encoded, seeds)
    ensures res.Ok? && InVideo(Representative(cluster).frame, s.frameCount) ==>
      var r := Representative(cluster).frame;
      var track := TrackOf(cluster, encoded, s.frameCount);
      && (Holds(res.value.start, res.value.end, r, s.frameCount) <==> (track.Some? ==> TrackReaches(track.value, r)))
      && (s.loads(r) ==> r in s.frames)
    ensures res.Ok? ==> res.value.matches != [] && ValidBox(GeometryOf(res.value))
    ensures res.Ok? && TrackOf(cluster, encoded, s.frameCount).None? ==>
      || InferredShape(res.value, s.matchCache, s.Sees, s.frameCount, Representative(cluster).frame)
      || (exists start, end :: KeptShape(res.value, start, end, s.frameCount))
  {
    hide *;
    TrackOfUnfolds(cluster, encoded, s.frameCount);
    var d := Representative(cluster);
    var r := d.frame;
    var confirmed := encoded && AnyConfirmed(cluster.detections);
    seeds := [];
    if s.frameCount < 1 {
      return Err(DecisionError.NoFrameAuthority), seeds;
    }
    var recovered := PreflightSourceBoundTemporalMatches(preflight, similar, cluster, s.frameCount);
    seeds := recovered;
    SeedsUnfold(seeds, preflight, similar, cluster, s.frameCount);
    if recovered != [] {
      SeedsAreSound(seeds, preflight, similar, cluster, s.frameCount);
    }
    var track := None;
    if confirmed {
      track := EncodedTemporalGeometryAuthority(cluster, s.frameCount);
    }
    FallbackSettles(timeline, r, s.frameCount);
    var initial := InitialWindow(timeline, r, s.frameCount, recovered != [] || track.Some?);
    if initial.Err? {
      FailsWithoutWindow(initial.error, s.matchCache, s.Sees, s.frameCount, cluster, timeline, encoded, seeds);
      return Err(initial.error), seeds;
    }
    if track.Some? {
      TrackDecision(cluster, track.value, s.frameCount);
      var confidence := if r in track.value.hitFrames then d.confidence else cluster.detections[0].confidence;
      var w := DecideByTrack(s, track.value, r, encodedText, confidence);
      res := Ok(w);
      TrackOutcomeHolds(w, track.value, s.frameCount, encodedText);
    } else {
      InitialWindowAround(timeline, r, s.frameCount, recovered != []);
      RepresentativeIsObserved(cluster);
      res := DecideBySource(s, DetectionFrames(cluster.detections), initial.value, recovered, r, encoded, confirmed);
      SourceOutcomeHolds(res, s.matchCache, s.Sees, s.frameCount, cluster, timeline, encoded, seeds, initial.value);
      if res.Ok? {
        GeometryIsValid(res.value);
      }
    }
  }

  // ----- The text of the occurrence -----

  function TextsOf(matches: seq<Match>): (r: seq<string>)
    ensures |r| == |matches| && forall i :: 0 <= i < |r| ==> r[i] == matches[i].text
  {
    Map(matches, (m: Match) => m.text)
  }

  /** A correction settles the text; otherwise the most frequent one must be shown by 80% of the matches. */
  function AgreedText(matches: seq<Match>, corrected: string): Result<string, DecisionError>
    requires matches != []
  {
    if corrected != "" then Ok(corrected)
    else
      var texts := TextsOf(matches);
      var best := texts[MostCommon(texts, |texts|)];
      if Ratio(CountOf(texts, best), |matches|) < 0.80 then Err(AmbiguousText) else Ok(best)
  }

  lemma FourFifths(n: nat, d: nat)
    requires d > 0
    ensures Ratio(n, d) >= 0.80 <==> 5 * n >= 4 * d
  {
    QuotientOrder(n as real, 0.80, d as real);
    assert 5.0 * n as real >= 4.0 * d as real <==> 5 * n >= 4 * d;
  }

  /** Without a correction the text is settled exactly when some text has four fifths of the matches, and is that text. */
  lemma AgreedTextIs(matches: seq<Match>)
    requires matches != []
    ensures var texts, r := TextsOf(matches), AgreedText(matches, "");
      && (r.Ok? <==> exists t :: t in texts && 5 * CountOf(texts, t) >= 4 * |matches|)
      && (forall t :: t in texts && 5 * CountOf(texts, t) >= 4 * |matches| ==> r == Ok(t))
  {
    hide CountOf, MostCommon, TextsOf, Ratio;
    var texts := TextsOf(matches);
    var best := texts[MostCommon(texts, |texts|)];
    assert best in texts;
    FourFifths(CountOf(texts, best), |matches|);
    forall t | t in texts && 5 * CountOf(texts, t) >= 4 * |matches|
      ensures t == best
    {
      var i :| 0 <= i < |texts| && texts[i] == t;
      assert CountOf(texts, texts[i]) <= CountOf(texts, best);
      if t != best {
        CountsDisjoint(texts, t, best);
      }
    }
  }

  /** The whole outcome of the window decision, branch by branch. */
  ghost predicate WindowOutcome(res: Result<Window, DecisionError>, cache: Cache, sees: int -> Option<Match>, frameCount: int,
                                cluster: Cluster, timeline: seq<TimelineRow>, encoded: bool, preflight: Preflight,
                                similar: (string, string) -> real, encodedText: string, seeds: seq<Match>)
    requires cluster.detections != []
  {
    if frameCount < 1 then res == Err(DecisionError.NoFrameAuthority)
    else
      && AreSeeds(seeds, preflight, similar, cluster, frameCount)
      && if TrackOf(cluster, encoded, frameCount).Some? then TrackOutcome(res, TrackOf(cluster, encoded, frameCount).value, frameCount, encodedText)
         else SourceOutcome(res, cache, sees, frameCount, cluster, timeline, encoded, seeds)
  }

  lemma WindowOutcomeHolds(res: Result<Window, DecisionError>, cache: Cache, sees: int -> Option<Match>, frameCount: int,
                           cluster: Cluster, timeline: seq<TimelineRow>, encoded: bool, preflight: Preflight,
                           similar: (string, string) -> real, encodedText: string, seeds: seq<Match>)
    requires cluster.detections != []
    requires frameCount < 1 ==> res == Err(DecisionError.NoFrameAuthority)
    requires frameCount >= 1 ==> AreSeeds(seeds, preflight, similar, cluster, frameCount)
    requires frameCount >= 1 && TrackOf(cluster, encoded, frameCount).Some? ==>
      TrackOutcome(res, TrackOf(cluster, encoded, frameCount).value, frameCount, encodedText)
    requires frameCount >= 1 && TrackOf(cluster, encoded, frameCount).None? ==>
      SourceOutcome(res, cache, sees, frameCount, cluster, timeline, encoded, seeds)
    ensures WindowOutcome(res, cache, sees, frameCount, cluster, timeline, encoded, preflight, similar, encodedText, seeds)
  {
    hide TrackOf, AreSeeds, TrackOutcome, SourceOutcome;
  }

  /** A settled window with its text, or the first of the two failures. */
  function WithText(window: Result<Window, DecisionError>, corrected: string): Result<(Window, string), DecisionError>
    requires window.Ok? ==> window.value.matches != []
  {
    match window
    case Err(e) => Err(e)
    case Ok(w) =>
      match AgreedText(w.matches, corrected)
      case Err(e) => Err(e)
      case Ok(text) => Ok((w, text))
  }

  /** A window settled by a track is never ambiguous. */
  lemma TrackTextIsAgreed(matches: seq<Match>, text: string)
    requires matches != [] && ShowsOnly(matches, text)
    ensures AgreedText(matches, "") == Ok(text)
  {
    AllCounted(TextsOf(matches), text);
    AgreedTextIs(matches);
    assert TextsOf(matches)[0] == text;
  }

  lemma {:induction false} AllCounted(texts: seq<string>, text: string)
    requires forall i :: 0 <= i < |texts| ==> texts[i] == text
    ensures CountOf(texts, text) == |texts|
  {
    if texts != [] {
      AllCounted(texts[1..], text);
    }
  }

  /** The window decision followed by the text decision. */
  method ProposeOccurrence(s: SourceScanner, cluster: Cluster, timeline: seq<TimelineRow>, encoded: bool, preflight: Preflight,
                           similar: (string, string) -> real, encodedText: string, corrected: string)
    returns (res: Result<(Window, string), DecisionError>, ghost window: Result<Window, DecisionError>, ghost seeds: seq<Match>)
    requires s.Valid() && s.matchCache == map[] && cluster.detections != []
    modifies s
    ensures s.Valid()
    ensures WindowOutcome(window, s.matchCache, s.Sees, s.frameCount, cluster, timeline, encoded, preflight, similar, encodedText, seeds)
    ensures window.Ok? ==> window.value.matches != [] && ValidBox(GeometryOf(window.value))
    ensures res == WithText(window, corrected)
    ensures window.Ok? && InVideo(Representative(cluster).frame, s.frameCount) ==>
      var r := Representative(cluster).frame;
      var track := TrackOf(cluster, encoded, s.frameCount);
      Holds(window.value.start, window.value.end, r, s.frameCount) <==> (track.Some? ==> TrackReaches(track.value, r))
  {
    hide *;
    var w;
    w, seeds := ProposeWindow(s, cluster, timeline, encoded, preflight, similar, encodedText);
    window := w;
    WindowOutcomeHolds(w, s.matchCache, s.Sees, s.frameCount, cluster, timeline, encoded, preflight, similar, encodedText, seeds);
    res := WithText(w, corrected);
  }

  lemma FallbackSettles(timeline: seq<TimelineRow>, r: int, frameCount: int)
    ensures InitialWindow(timeline, r, frameCount, true).Ok?
  {
  }

  lemma SeedsUnfold(seeds: seq<Match>, preflight: Preflight, similar: (string, string) -> real, cluster: Cluster, frameCount: int)
    requires cluster.detections != []
    requires seeds != [] <==> PreflightBinds(preflight, similar, cluster, frameCount)
    requires seeds != [] ==>
      var d := Representative(cluster);
      && |seeds| == 2
      && (exists k :: BestSource(similar, d, ReadRect(d.geometry).value, preflight.sourceRows, k)
                      && seeds[0] == SourceMatch(preflight.sourceRows[k]))
      && seeds[1] == Match(d.confirmation.frame.value, d.confirmation.text, d.confirmation.confidence,
                           ReadBox(d.confirmation.geometry).value)
    ensures AreSeeds(seeds, preflight, similar, cluster, frameCount)
  {
  }

  lemma FailsWithoutWindow(error: DecisionError, cache: Cache, sees: int -> Option<Match>, frameCount: int, cluster: Cluster,
                           timeline: seq<TimelineRow>, encoded: bool, seeds: seq<Match>)
    requires cluster.detections != []
    requires InitialWindow(timeline, Representative(cluster).frame, frameCount, seeds != []) == Err(error)
    ensures SourceOutcome(Err(error), cache, sees, frameCount, cluster, timeline, encoded, seeds)
  {
  }

  lemma TrackOutcomeHolds(w: Window, track: EncodedAuthority, frameCount: int, text: string)
    requires FramesOf(w.matches) == track.hitFrames && w.matches != [] && GeometryOf(w) == track.geometry && ShowsOnly(w.matches, text)
    requires KeepOrPad(track.start, track.end, track.hitFrames, track.hitFrames, frameCount, true, false, 1, Some(track))
          == Ok((w.start, w.end, w.path))
    ensures TrackOutcome(Ok(w), track, frameCount, text)
  {
  }

  lemma SourceOutcomeHolds(res: Result<Window, DecisionError>, cache: Cache, sees: int -> Option<Match>, frameCount: int,
                           cluster: Cluster, timeline: seq<TimelineRow>, encoded: bool, seeds: seq<Match>, initial: (int, int, bool))
    requires cluster.detections != []
    requires InitialWindow(timeline, Representative(cluster).frame, frameCount, seeds != []) == Ok(initial)
    requires SourceDecision(res, cache, sees, frameCount,
                            ScannedEvidence(sees, frameCount, initial.0, initial.1, DetectionFrames(cluster.detections),
                                            Representative(cluster).frame, encoded, seeds),
                            initial, Representative(cluster).frame, encoded, encoded && AnyConfirmed(cluster.detections))
    ensures SourceOutcome(res, cache, sees, frameCount, cluster, timeline, encoded, seeds)
  {
    hide InitialWindow, Representative, SourceDecision, ScannedEvidence;
  }

  lemma TrackOfUnfolds(cluster: Cluster, encoded: bool, frameCount: int)
    ensures TrackOf(cluster, encoded, frameCount)
         == if encoded && AnyConfirmed(cluster.detections) then EncodedAuthorityOf(cluster, frameCount) else None
  {
  }

  lemma InitialWindowAround(timeline: seq<TimelineRow>, r: int, frameCount: int, fallback: bool)
    ensures var w := InitialWindow(timeline, r, frameCount, fallback);
      w.Ok? && r >= 0 && !w.value.2 ==> w.value.0 <= r <= w.value.1
  {
    if r >= 0 {
      DominantWindowIsSupported(timeline, r);
    }
  }

  lemma RepresentativeIsObserved(cluster: Cluster)
    requires cluster.detections != []
    ensures Representative(cluster).frame in DetectionFrames(cluster.detections)
  {
  }

  lemma GeometryIsValid(w: Window)
    requires w.matches != [] && forall m :: m in w.matches ==> ValidBox(m.geometry)
    ensures ValidBox(GeometryOf(w))
  {
    MedianBoxIsValid(BoxesOfMatches(w.matches));
  }

  lemma SeedsAreSound(seeds: seq<Match>, preflight: Preflight, similar: (string, string) -> real, cluster: Cluster, frameCount: int)
    requires PreflightBinds(preflight, similar, cluster, frameCount) && |seeds| == 2 && cluster.detections != []
    requires var d := Representative(cluster);
      && (exists k :: BestSource(similar, d, ReadRect(d.geometry).value, preflight.sourceRows, k)
                      && seeds[0] == SourceMatch(preflight.sourceRows[k]))
      && seeds[1] == Match(d.confirmation.frame.value, d.confirmation.text, d.confirmation.confidence,
                           ReadBox(d.confirmation.geometry).value)
    ensures forall m :: m in seeds ==> InVideo(m.frame, frameCount) && ValidBox(m.geometry)
    ensures Representative(cluster).frame in FramesOf(seeds)
  {
    hide Overlap, AreaSimilarity;
    assert FramesOf(seeds)[0] == seeds[0].frame;
    assert seeds[0] in seeds && seeds[1] in seeds;
  }
}
