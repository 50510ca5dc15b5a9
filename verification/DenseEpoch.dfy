/** Merging frame intervals and choosing the dense panel epoch with its tracks and region. */
module DenseEpoch {
  import opened Prelude
  import opened Sorting
  import opened Geometry

  datatype Interval = Interval(start: int, end: int)

  /** The order Python gives pairs. */
  function Before(a: Interval, b: Interval): bool { a.start < b.start || (a.start == b.start && a.end <= b.end) }

  predicate Within(f: int, i: Interval) { i.start <= f <= i.end }

  predicate Covered(f: int, s: seq<Interval>) { exists k :: 0 <= k < |s| && Within(f, s[k]) }

  /** Folds an interval into a merged list whose last interval it may extend. */
  function Fold(merged: seq<Interval>, i: Interval): seq<Interval> {
    if merged != [] && i.start <= merged[|merged| - 1].end + 1 then
      var last := merged[|merged| - 1];
      merged[|merged| - 1 := Interval(last.start, Max(last.end, i.end))]
    else merged + [i]
  }

  function Folded(s: seq<Interval>): seq<Interval> {
    if s == [] then [] else Fold(Folded(s[..|s| - 1]), s[|s| - 1])
  }

  function Merged(s: seq<Interval>): seq<Interval> { Folded(Sort(s, Before)) }

  method MergeIntervals(intervals: seq<Interval>) returns (merged: seq<Interval>)
    ensures merged == Merged(intervals)
  {
    var ordered := Sort(intervals, Before);
    merged := [];
    var i := 0;
    while i < |ordered|
      invariant 0 <= i <= |ordered|
      invariant merged == Folded(ordered[..i])
    {
      assert ordered[..i + 1][..i] == ordered[..i];
      var next := ordered[i];
      if merged != [] && next.start <= merged[|merged| - 1].end + 1 {
        var last := merged[|merged| - 1];
        merged := merged[|merged| - 1 := Interval(last.start, Max(last.end, next.end))];
      } else {
        merged := merged + [next];
      }
      i := i + 1;
    }
    assert ordered[..i] == ordered;
  }

  /** Consecutive intervals leave at least one frame between them. */
  ghost predicate Separated(s: seq<Interval>) {
    forall i, j :: 0 <= i < j < |s| ==> s[i].end + 1 < s[j].start
  }

  /** Starts do not decrease. */
  ghost predicate Ascending(s: seq<Interval>) {
    forall i, j :: 0 <= i < j < |s| ==> s[i].start <= s[j].start
  }

  /** Separated, and opened by the starts of the list. */
  ghost predicate Tidy(merged: seq<Interval>, s: seq<Interval>) {
    && Separated(merged) && (s != [] ==> merged != [])
    && (merged != [] ==> s != [] && merged[|merged| - 1].start <= s[|s| - 1].start)
  }

  lemma {:induction false} FoldedIsTidy(s: seq<Interval>)
    requires Ascending(s)
    ensures Tidy(Folded(s), s)
  {
    if s != [] {
      FoldedIsTidy(s[..|s| - 1]);
    }
  }

  lemma FoldCovers(merged: seq<Interval>, i: Interval, f: int)
    requires merged != [] ==> merged[|merged| - 1].start <= i.start
    ensures Covered(f, Fold(merged, i)) <==> Covered(f, merged) || Within(f, i)
  {
    var folded := Fold(merged, i);
    var n := |merged| - 1;
    if k :| 0 <= k < |merged| && Within(f, merged[k]) {
      assert Within(f, folded[k]);
    }
    if Within(f, i) {
      assert Within(f, folded[|folded| - 1]);
    }
    if k :| 0 <= k < |folded| && Within(f, folded[k]) {
      if k < n {
        assert Within(f, merged[k]);
      } else if k == n && |folded| == |merged| {
        assert Within(f, merged[n]) || Within(f, i);
      }
    }
  }

  lemma {:induction false} FoldedCovers(s: seq<Interval>, f: int)
    requires Ascending(s)
    ensures Covered(f, Folded(s)) <==> Covered(f, s)
  {
    hide Within, Fold;
    if s != [] {
      var front, last := s[..|s| - 1], s[|s| - 1];
      FoldedCovers(front, f);
      FoldedIsTidy(front);
      FoldCovers(Folded(front), last, f);
    }
  }

  lemma SortAscends(s: seq<Interval>)
    ensures Ascending(Sort(s, Before))
    ensures forall i :: i in Sort(s, Before) <==> i in s
  {
    SortSorts(s, Before);
    var sorted := Sort(s, Before);
    assert forall i, j :: 0 <= i < j < |sorted| ==> Before(sorted[i], sorted[j]);
    forall i
      ensures i in sorted <==> i in s
    {
      SameMembers(s, Before, i);
    }
  }

  lemma SameCover(a: seq<Interval>, b: seq<Interval>, f: int)
    requires forall i :: i in a ==> i in b
    ensures Covered(f, a) ==> Covered(f, b)
  {
    if k :| 0 <= k < |a| && Within(f, a[k]) {
      assert a[k] in b;
      var l :| 0 <= l < |b| && b[l] == a[k];
    }
  }

  /** Merging keeps exactly the covered frames, and leaves an uncovered frame between consecutive intervals. */
  lemma MergePreservesFrames(intervals: seq<Interval>, f: int)
    ensures Covered(f, Merged(intervals)) <==> Covered(f, intervals)
    ensures Separated(Merged(intervals))
  {
    SortAscends(intervals);
    var ordered := Sort(intervals, Before);
    FoldedCovers(ordered, f);
    FoldedIsTidy(ordered);
    SameCover(ordered, intervals, f);
    SameCover(intervals, ordered, f);
  }

  predicate Inside(a: Interval, b: Interval) { b.start <= a.start && a.end <= b.end }

  lemma {:induction false} FoldedContains(s: seq<Interval>, k: nat) returns (m: nat)
    requires Ascending(s) && k < |s|
    ensures m < |Folded(s)| && Inside(s[k], Folded(s)[m])
  {
    var front, last := s[..|s| - 1], s[|s| - 1];
    FoldedIsTidy(front);
    if k == |s| - 1 {
      m := |Folded(s)| - 1;
    } else {
      m := FoldedContains(front, k);
    }
  }

  /** Each interval lies whole in one merged interval. */
  lemma MergedContains(intervals: seq<Interval>, i: Interval) returns (m: nat)
    requires i in intervals
    ensures m < |Merged(intervals)| && Inside(i, Merged(intervals)[m])
  {
    SortAscends(intervals);
    var ordered := Sort(intervals, Before);
    assert i in ordered;
    var k :| 0 <= k < |ordered| && ordered[k] == i;
    m := FoldedContains(ordered, k);
  }

  // ----- The epoch -----

  datatype Track = Track(start: Option<int>, end: Option<int>, coversResidual: bool, denseUi: bool, simultaneous: Option<int>)

  datatype EpochError = NoBoundedEpoch

  /** A missing end and an end of zero both count as -1. */
  function SpanOf(t: Track): Interval { Interval(OrDefault(t.start, 0), OrDefault(t.end, -1)) }

  predicate Eligible(t: Track) {
    t.coversResidual && t.denseUi && OrDefault(t.simultaneous, 0) >= 20 && SpanOf(t).start <= SpanOf(t).end
  }

  function EligibleTracks(tracks: seq<Track>): seq<Track> {
    if tracks == [] then []
    else EligibleTracks(tracks[..|tracks| - 1]) + (if Eligible(tracks[|tracks| - 1]) then [tracks[|tracks| - 1]] else [])
  }

  function Spans(tracks: seq<Track>): (spans: seq<Interval>)
    ensures |spans| == |tracks| && forall i :: 0 <= i < |tracks| ==> spans[i] == SpanOf(tracks[i])
  {
    Map(tracks, t => SpanOf(t))
  }

  /** How many of the residual frames fall into the interval, repeats included. */
  function FramesIn(i: Interval, frames: seq<int>): nat {
    if frames == [] then 0 else FramesIn(i, frames[..|frames| - 1]) + (if Within(frames[|frames| - 1], i) then 1 else 0)
  }

  predicate Candidate(i: Interval, frames: seq<int>, maxFrames: int) {
    i.end - i.start + 1 <= maxFrames && exists k :: 0 <= k < |frames| && Within(frames[k], i)
  }

  /** The first candidate covering the most frames, among the first `n` merged intervals. */
  function Best(merged: seq<Interval>, frames: seq<int>, maxFrames: int, n: nat): (best: Option<Interval>)
    requires n <= |merged|
    ensures best.Some? ==> Candidate(best.value, frames, maxFrames) && exists k :: 0 <= k < n && merged[k] == best.value
    ensures forall k :: 0 <= k < n && Candidate(merged[k], frames, maxFrames) ==>
      best.Some? && FramesIn(merged[k], frames) <= FramesIn(best.value, frames)
  {
    if n == 0 then None
    else
      var earlier := Best(merged, frames, maxFrames, n - 1);
      var next := merged[n - 1];
      if Candidate(next, frames, maxFrames) && (earlier.None? || FramesIn(next, frames) > FramesIn(earlier.value, frames))
      then Some(next) else earlier
  }

  predicate Overlaps(t: Track, epoch: Interval) { SpanOf(t).start <= epoch.end && SpanOf(t).end >= epoch.start }

  function Overlapping(tracks: seq<Track>, epoch: Interval): seq<Track> {
    if tracks == [] then []
    else Overlapping(tracks[..|tracks| - 1], epoch) + (if Overlaps(tracks[|tracks| - 1], epoch) then [tracks[|tracks| - 1]] else [])
  }

  function DenseEpochOf(tracks: seq<Track>, frames: seq<int>, maxFrames: int): Result<(Interval, seq<Track>), EpochError> {
    var eligible := EligibleTracks(tracks);
    var merged := Merged(Spans(eligible));
    match Best(merged, frames, maxFrames, |merged|)
    case None => Err(NoBoundedEpoch)
    case Some(epoch) => Ok((epoch, Overlapping(eligible, epoch)))
  }

  method SelectDenseEpoch(tracks: seq<Track>, frames: seq<int>, maxFrames: int) returns (r: Result<(Interval, seq<Track>), EpochError>)
    ensures r == DenseEpochOf(tracks, frames, maxFrames)
  {
    hide Merged, Best, Eligible, SpanOf, Overlapping;
    var eligible: seq<Track>, intervals: seq<Interval> := [], [];
    var i := 0;
    while i < |tracks|
      invariant 0 <= i <= |tracks|
      invariant eligible == EligibleTracks(tracks[..i]) && intervals == Spans(eligible)
    {
      assert tracks[..i + 1][..i] == tracks[..i];
      if Eligible(tracks[i]) {
        eligible := eligible + [tracks[i]];
        intervals := intervals + [SpanOf(tracks[i])];
        assert intervals == Spans(eligible);
      }
      i := i + 1;
    }
    assert tracks[..i] == tracks;
    var merged := MergeIntervals(intervals);
    var epoch := Best(merged, frames, maxFrames, |merged|);
    r := if epoch.None? then Err(NoBoundedEpoch) else Ok((epoch.value, Overlapping(eligible, epoch.value)));
  }

  lemma {:induction false} EligibleAre(tracks: seq<Track>, t: Track)
    ensures t in EligibleTracks(tracks) <==> t in tracks && Eligible(t)
  {
    hide Eligible;
    if tracks != [] {
      EligibleAre(tracks[..|tracks| - 1], t);
      assert tracks == tracks[..|tracks| - 1] + [tracks[|tracks| - 1]];
    }
  }

  lemma {:induction false} OverlappingAre(tracks: seq<Track>, epoch: Interval, t: Track)
    ensures t in Overlapping(tracks, epoch) <==> t in tracks && Overlaps(t, epoch)
  {
    hide Overlaps;
    if tracks != [] {
      OverlappingAre(tracks[..|tracks| - 1], epoch, t);
      assert tracks == tracks[..|tracks| - 1] + [tracks[|tracks| - 1]];
    }
  }

  /** An eligible track overlaps a merged interval exactly when it lies inside it. */
  lemma OverlapIsContainment(tracks: seq<Track>, t: Track, m: nat)
    requires t in tracks && Eligible(t) && m < |Merged(Spans(tracks))|
    ensures Overlaps(t, Merged(Spans(tracks))[m]) <==> Inside(SpanOf(t), Merged(Spans(tracks))[m])
  {
    var k := MergedContains(Spans(tracks), SpanOf(t));
    MergePreservesFrames(Spans(tracks), 0);
    hide Merged;
  }

  /**
   * The chosen tracks are the eligible ones lying wholly inside the epoch, together they cover it frame by frame, the
   * epoch is bounded and holds a residual frame, and no other bounded merged interval covers more residual frames.
   * Selection fails exactly when no bounded merged interval holds a residual frame.
   */
  lemma DenseEpochIsSound(tracks: seq<Track>, frames: seq<int>, maxFrames: int)
    ensures var r := DenseEpochOf(tracks, frames, maxFrames);
      var merged := Merged(Spans(EligibleTracks(tracks)));
      && (r.Err? <==> forall k :: 0 <= k < |merged| ==> !Candidate(merged[k], frames, maxFrames))
      && (r.Ok? ==>
            var (epoch, chosen) := r.value;
            && Candidate(epoch, frames, maxFrames)
            && (forall k :: 0 <= k < |merged| && Candidate(merged[k], frames, maxFrames) ==>
                  FramesIn(merged[k], frames) <= FramesIn(epoch, frames))
            && (forall t :: t in chosen <==> t in tracks && Eligible(t) && Inside(SpanOf(t), epoch))
            && (forall f :: Within(f, epoch) <==> exists t :: t in chosen && Within(f, SpanOf(t))))
  {
    var eligible := EligibleTracks(tracks);
    var merged := Merged(Spans(eligible));
    var r := DenseEpochOf(tracks, frames, maxFrames);
    if r.Ok? {
      var (epoch, chosen) := r.value;
      var m :| 0 <= m < |merged| && merged[m] == epoch;
      hide Merged, Best, Eligible, SpanOf, Candidate, FramesIn, Overlaps;
      forall t
        ensures t in chosen <==> t in tracks && Eligible(t) && Inside(SpanOf(t), epoch)
      {
        ChosenLieInside(tracks, m, t);
      }
      forall f
        ensures Within(f, epoch) <==> exists t :: t in chosen && Within(f, SpanOf(t))
      {
        ChosenCover(tracks, m, f);
      }
    }
  }

  /**
   * A track whose end is zero or missing is read as ending at -1: for all its frames it is chosen only if it starts before
   * the video and the epoch reaches back to there.
   */
  lemma WhenZeroEndIsChosen(tracks: seq<Track>, frames: seq<int>, maxFrames: int, t: Track)
    requires DenseEpochOf(tracks, frames, maxFrames).Ok? && t in tracks && OrDefault(t.end, 0) == 0
    ensures var (epoch, chosen) := DenseEpochOf(tracks, frames, maxFrames).value;
      t in chosen <==>
      && t.coversResidual && t.denseUi && OrDefault(t.simultaneous, 0) >= 20
      && epoch.start <= OrDefault(t.start, 0) < 0 && -1 <= epoch.end
  {
    DenseEpochIsSound(tracks, frames, maxFrames);
    hide DenseEpochOf, Candidate, Merged, FramesIn;
  }

  /** Where the residual frames of an interval are. */
  ghost function Hits(i: Interval, frames: seq<int>): set<nat> { set k: nat | k < |frames| && i.start <= frames[k] <= i.end }

  lemma {:induction false} FramesAreCounted(i: Interval, frames: seq<int>)
    ensures FramesIn(i, frames) == |Hits(i, frames)|
  {
    if frames != [] {
      var n := |frames| - 1;
      FramesAreCounted(i, frames[..n]);
      assert Hits(i, frames) == if Within(frames[n], i) then Hits(i, frames[..n]) + {n} else Hits(i, frames[..n]);
    } else {
      assert Hits(i, frames) == {};
    }
  }

  /** Not longer than allowed, and with some residual frame in it. */
  ghost predicate Fits(i: Interval, frames: seq<int>, maxFrames: int) { i.end - i.start < maxFrames && Hits(i, frames) != {} }

  /** Of the merged intervals that fit, the first of those with the most residual frames. */
  ghost predicate FirstOfMost(merged: seq<Interval>, frames: seq<int>, maxFrames: int, m: int) {
    && 0 <= m < |merged| && Fits(merged[m], frames, maxFrames)
    && (forall k :: 0 <= k < |merged| && Fits(merged[k], frames, maxFrames) ==> |Hits(merged[k], frames)| <= |Hits(merged[m], frames)|)
    && (forall k :: 0 <= k < m && Fits(merged[k], frames, maxFrames) ==> |Hits(merged[k], frames)| < |Hits(merged[m], frames)|)
  }

  lemma WhenItFits(i: Interval, frames: seq<int>, maxFrames: int)
    ensures Candidate(i, frames, maxFrames) <==> Fits(i, frames, maxFrames)
  {
    if k :| 0 <= k < |frames| && Within(frames[k], i) {
      var n: nat := k;
      assert n in Hits(i, frames);
    }
    if Hits(i, frames) != {} {
      var n :| n in Hits(i, frames);
      assert Within(frames[n], i);
    }
  }

  lemma {:induction false} BestIsFirst(merged: seq<Interval>, frames: seq<int>, maxFrames: int, n: nat)
    requires n <= |merged|
    ensures var best := Best(merged, frames, maxFrames, n);
      best.Some? ==> exists m :: 0 <= m < n && FirstOfMost(merged[..n], frames, maxFrames, m) && merged[m] == best.value
  {
    hide Candidate, FramesIn, FirstOfMost, Fits;
    if n > 0 {
      BestIsFirst(merged, frames, maxFrames, n - 1);
      var front, last := merged[..n - 1], merged[n - 1];
      assert merged[..n] == front + [last];
      WhenItFits(last, frames, maxFrames);
      FramesAreCounted(last, frames);
      var earlier, best := Best(merged, frames, maxFrames, n - 1), Best(merged, frames, maxFrames, n);
      if earlier.Some? {
        forall m | FirstOfMost(front, frames, maxFrames, m)
          ensures 0 <= m < |front| && merged[m] == front[m]
        {
          OneMoreInterval(front, last, frames, maxFrames, m);
        }
        var m :| FirstOfMost(front, frames, maxFrames, m) && merged[m] == earlier.value;
        FramesAreCounted(earlier.value, frames);
        OneMoreInterval(front, last, frames, maxFrames, m);
      } else if best.Some? {
        forall k | 0 <= k < |front|
          ensures !Fits(front[k], frames, maxFrames)
        {
          WhenItFits(merged[k], frames, maxFrames);
        }
        OneMoreInterval(front, last, frames, maxFrames, 0);
      }
    }
  }

  lemma OneMoreInterval(front: seq<Interval>, last: Interval, frames: seq<int>, maxFrames: int, m: int)
    ensures FirstOfMost(front, frames, maxFrames, m) ==> 0 <= m < |front|
    ensures FirstOfMost(front, frames, maxFrames, m) && (Fits(last, frames, maxFrames) ==> |Hits(last, frames)| <= |Hits(front[m], frames)|) ==>
      FirstOfMost(front + [last], frames, maxFrames, m)
    ensures Fits(last, frames, maxFrames) && FirstOfMost(front, frames, maxFrames, m) && |Hits(last, frames)| > |Hits(front[m], frames)| ==>
      FirstOfMost(front + [last], frames, maxFrames, |front|)
    ensures Fits(last, frames, maxFrames) && (forall k :: 0 <= k < |front| ==> !Fits(front[k], frames, maxFrames)) ==>
      FirstOfMost(front + [last], frames, maxFrames, |front|)
  {
    hide Fits, Hits;
    assert forall k :: 0 <= k < |front| ==> (front + [last])[k] == front[k];
  }

  /** A track qualifies: it covers the residual, is dense with twenty texts at once, and its span is not reversed. */
  predicate Qualifies(t: Track, start: int, end: int) {
    && t.coversResidual && t.denseUi && t.simultaneous.Some? && t.simultaneous.value >= 20
    && start == (if t.start.Some? then t.start.value else 0)
    && end == (if t.end.Some? && t.end.value != 0 then t.end.value else -1)
    && start <= end
  }

  lemma EpochIsFirst(tracks: seq<Track>, frames: seq<int>, maxFrames: int)
    requires DenseEpochOf(tracks, frames, maxFrames).Ok?
    ensures var merged := Merged(Spans(EligibleTracks(tracks)));
      exists m :: FirstOfMost(merged, frames, maxFrames, m) && merged[m] == DenseEpochOf(tracks, frames, maxFrames).value.0
  {
    var merged := Merged(Spans(EligibleTracks(tracks)));
    BestIsFirst(merged, frames, maxFrames, |merged|);
    assert merged[..|merged|] == merged;
    BestOfEpoch(tracks, frames, maxFrames);
    hide *;
    var m :| 0 <= m < |merged| && FirstOfMost(merged, frames, maxFrames, m)
      && merged[m] == Best(merged, frames, maxFrames, |merged|).value;
  }

  lemma BestOfEpoch(tracks: seq<Track>, frames: seq<int>, maxFrames: int)
    requires DenseEpochOf(tracks, frames, maxFrames).Ok?
    ensures var merged := Merged(Spans(EligibleTracks(tracks)));
      Best(merged, frames, maxFrames, |merged|) == Some(DenseEpochOf(tracks, frames, maxFrames).value.0)
  {
    hide Merged, Spans, Best, EligibleTracks, Overlapping;
  }

  lemma WhenTrackIsChosen(tracks: seq<Track>, frames: seq<int>, maxFrames: int, t: Track)
    requires DenseEpochOf(tracks, frames, maxFrames).Ok?
    ensures var (epoch, chosen) := DenseEpochOf(tracks, frames, maxFrames).value;
      t in chosen <==> t in tracks && Eligible(t) && Inside(SpanOf(t), epoch)
  {
    DenseEpochIsSound(tracks, frames, maxFrames);
    hide *;
  }

  /**
   * The epoch is the first merged interval with the most residual frames of those that fit, and the tracks chosen with it are
   * those that qualify with a span inside it.
   */
  lemma WhenEpochIsChosen(tracks: seq<Track>, frames: seq<int>, maxFrames: int, t: Track)
    requires DenseEpochOf(tracks, frames, maxFrames).Ok?
    ensures var (epoch, chosen) := DenseEpochOf(tracks, frames, maxFrames).value;
      var merged := Merged(Spans(EligibleTracks(tracks)));
      && (exists m :: FirstOfMost(merged, frames, maxFrames, m) && merged[m] == epoch)
      && (t in chosen <==>
            t in tracks && exists start, end :: Qualifies(t, start, end) && epoch.start <= start && end <= epoch.end)
  {
    EpochIsFirst(tracks, frames, maxFrames);
    WhenTrackIsChosen(tracks, frames, maxFrames, t);
    WhenItQualifies(t);
    hide DenseEpochOf, Merged, Spans, EligibleTracks, Eligible, SpanOf, FirstOfMost, Qualifies;
  }

  lemma WhenItQualifies(t: Track)
    ensures Eligible(t) <==> Qualifies(t, SpanOf(t).start, SpanOf(t).end)
    ensures forall start, end :: Qualifies(t, start, end) ==> start == SpanOf(t).start && end == SpanOf(t).end
  {
  }

  lemma ChosenLieInside(tracks: seq<Track>, m: nat, t: Track)
    requires m < |Merged(Spans(EligibleTracks(tracks)))|
    ensures var epoch := Merged(Spans(EligibleTracks(tracks)))[m];
      t in Overlapping(EligibleTracks(tracks), epoch) <==> t in tracks && Eligible(t) && Inside(SpanOf(t), epoch)
  {
    hide Merged, Eligible, Overlaps, Inside;
    var eligible := EligibleTracks(tracks);
    EligibleAre(tracks, t);
    OverlappingAre(eligible, Merged(Spans(eligible))[m], t);
    if t in eligible {
      OverlapIsContainment(eligible, t, m);
    }
  }

  lemma ChosenCover(tracks: seq<Track>, m: nat, f: int)
    requires m < |Merged(Spans(EligibleTracks(tracks)))|
    ensures var epoch := Merged(Spans(EligibleTracks(tracks)))[m];
      Within(f, epoch) <==> exists t :: t in Overlapping(EligibleTracks(tracks), epoch) && Within(f, SpanOf(t))
  {
    hide Merged, Eligible, Overlapping, SpanOf;
    var eligible := EligibleTracks(tracks);
    var merged := Merged(Spans(eligible));
    var epoch := merged[m];
    if Within(f, epoch) {
      MergePreservesFrames(Spans(eligible), f);
      assert Covered(f, Spans(eligible));
      var k :| 0 <= k < |Spans(eligible)| && Within(f, Spans(eligible)[k]);
      var t := eligible[k];
      EligibleAre(tracks, t);
      OverlappingAre(eligible, epoch, t);
      assert t in Overlapping(eligible, epoch);
    }
    if t :| t in Overlapping(eligible, epoch) && Within(f, SpanOf(t)) {
      ChosenLieInside(tracks, m, t);
    }
  }

  // ----- The panel region -----

  datatype Detection = Detection(frame: Option<int>, geometry: Option<Box>)

  datatype RegionError = NoGeometry | EmptyRegion

  function BoxesIn(detections: seq<Detection>, span: Interval): seq<Box> {
    if detections == [] then []
    else
      var d := detections[|detections| - 1];
      BoxesIn(detections[..|detections| - 1], span)
      + (if Within(OrDefault(d.frame, 0), span) && d.geometry.Some? then [d.geometry.value] else [])
  }

  /** Left, top, right and bottom bounds of at least one box. */
  function Bounds(boxes: seq<Box>): (r: Rect)
    requires boxes != []
    ensures forall k :: 0 <= k < |boxes| ==> Geometry.Inside(Corners(boxes[k]), r)
    ensures exists k :: 0 <= k < |boxes| && boxes[k].x == r.left
    ensures exists k :: 0 <= k < |boxes| && boxes[k].y == r.top
    ensures exists k :: 0 <= k < |boxes| && boxes[k].x + boxes[k].width == r.right
    ensures exists k :: 0 <= k < |boxes| && boxes[k].y + boxes[k].height == r.bottom
  {
    var last := Corners(boxes[|boxes| - 1]);
    if |boxes| == 1 then last
    else
      var earlier := Bounds(boxes[..|boxes| - 1]);
      Rect(MinReal(earlier.left, last.left), MinReal(earlier.top, last.top),
           MaxReal(earlier.right, last.right), MaxReal(earlier.bottom, last.bottom))
  }

  function PanelRoi(detections: seq<Detection>, span: Interval, padX: real, padY: real): Result<Rect, RegionError> {
    var boxes := BoxesIn(detections, span);
    if boxes == [] then Err(NoGeometry)
    else
      var b := Bounds(boxes);
      var roi := Rect(MaxReal(0.0, b.left - padX), MaxReal(0.0, b.top - padY), MinReal(1.0, b.right + padX), MinReal(1.0, b.bottom + padY));
      if roi.right <= roi.left || roi.bottom <= roi.top then Err(EmptyRegion) else Ok(roi)
  }

  /** A box cut to the unit square. */
  function Clipped(b: Box): Rect {
    Rect(MaxReal(0.0, b.x), MaxReal(0.0, b.y), MinReal(1.0, b.x + b.width), MinReal(1.0, b.y + b.height))
  }

  lemma {:induction false} BoxesAreIn(detections: seq<Detection>, span: Interval, b: Box)
    ensures b in BoxesIn(detections, span) <==>
      exists d :: d in detections && Within(OrDefault(d.frame, 0), span) && d.geometry == Some(b)
  {
    hide Within;
    if detections != [] {
      var front, last := detections[..|detections| - 1], detections[|detections| - 1];
      BoxesAreIn(front, span, b);
      assert detections == front + [last];
    }
  }

  /** The region lies in the unit square, has an area, and contains every detection of the span as far as it is visible. */
  lemma PanelRoiContains(detections: seq<Detection>, span: Interval, padX: real, padY: real, d: Detection)
    requires padX >= 0.0 && padY >= 0.0 && PanelRoi(detections, span, padX, padY).Ok?
    requires d in detections && Within(OrDefault(d.frame, 0), span) && d.geometry.Some?
    ensures var roi := PanelRoi(detections, span, padX, padY).value;
      && 0.0 <= roi.left < roi.right <= 1.0 && 0.0 <= roi.top < roi.bottom <= 1.0
      && Geometry.Inside(Clipped(d.geometry.value), roi)
  {
    var boxes := BoxesIn(detections, span);
    BoxesAreIn(detections, span, d.geometry.value);
    var k :| 0 <= k < |boxes| && boxes[k] == d.geometry.value;
    assert Geometry.Inside(Corners(boxes[k]), Bounds(boxes));
  }

  /** With valid geometry and a padding of at least the tolerance, the region fails exactly when the span has no geometry. */
  lemma WhenPanelRoiExists(detections: seq<Detection>, span: Interval, padX: real, padY: real)
    requires padX >= 0.001 && padY >= 0.001
    requires forall b :: b in BoxesIn(detections, span) ==> ValidBox(b)
    ensures PanelRoi(detections, span, padX, padY).Ok? <==> BoxesIn(detections, span) != []
  {
    var boxes := BoxesIn(detections, span);
    if boxes != [] {
      var r := Bounds(boxes);
      var k :| 0 <= k < |boxes| && boxes[k].x == r.left;
      var l :| 0 <= l < |boxes| && boxes[l].y == r.top;
      assert boxes[k] in boxes && boxes[l] in boxes;
      assert Geometry.Inside(Corners(boxes[k]), r) && Geometry.Inside(Corners(boxes[l]), r);
    }
  }

  /** A box seen in the span. */
  ghost predicate Seen(detections: seq<Detection>, span: Interval, b: Box) {
    exists d :: d in detections && d.geometry == Some(b) && span.start <= (if d.frame.Some? then d.frame.value else 0) <= span.end
  }

  /** Each side of the region is that of some box seen, moved out by the padding and cut to the frame. */
  lemma RegionIsTight(detections: seq<Detection>, span: Interval, padX: real, padY: real)
    ensures var r := PanelRoi(detections, span, padX, padY);
      && (r == Err(NoGeometry) <==> forall b :: !Seen(detections, span, b))
      && (r.Ok? ==>
            && (exists b :: Seen(detections, span, b) && r.value.left == MaxReal(0.0, b.x - padX))
            && (exists b :: Seen(detections, span, b) && r.value.top == MaxReal(0.0, b.y - padY))
            && (exists b :: Seen(detections, span, b) && r.value.right == MinReal(1.0, b.x + b.width + padX))
            && (exists b :: Seen(detections, span, b) && r.value.bottom == MinReal(1.0, b.y + b.height + padY)))
  {
    var boxes := BoxesIn(detections, span);
    SeenAreListed(detections, span);
    WhenNoneIsSeen(detections, span);
    RegionOfBoxes(detections, span, padX, padY);
    hide *;
    if boxes != [] {
      var left, top, right, bottom := BoundsAreAttained(boxes);
      var r := PanelRoi(detections, span, padX, padY);
      assert Seen(detections, span, left) && (r.Ok? ==> r.value.left == MaxReal(0.0, left.x - padX));
      assert Seen(detections, span, top) && (r.Ok? ==> r.value.top == MaxReal(0.0, top.y - padY));
      assert Seen(detections, span, right) && (r.Ok? ==> r.value.right == MinReal(1.0, right.x + right.width + padX));
      assert Seen(detections, span, bottom) && (r.Ok? ==> r.value.bottom == MinReal(1.0, bottom.y + bottom.height + padY));
    }
  }

  lemma WhenNoneIsSeen(detections: seq<Detection>, span: Interval)
    ensures BoxesIn(detections, span) == [] <==> forall b :: !Seen(detections, span, b)
  {
    SeenAreListed(detections, span);
    hide *;
    var boxes := BoxesIn(detections, span);
    if boxes != [] {
      assert boxes[0] in boxes;
    }
  }

  lemma SeenAreListed(detections: seq<Detection>, span: Interval)
    ensures forall b :: b in BoxesIn(detections, span) <==> Seen(detections, span, b)
  {
    forall b
      ensures b in BoxesIn(detections, span) <==> Seen(detections, span, b)
    {
      BoxesAreIn(detections, span, b);
    }
  }

  lemma RegionOfBoxes(detections: seq<Detection>, span: Interval, padX: real, padY: real)
    ensures var r, boxes := PanelRoi(detections, span, padX, padY), BoxesIn(detections, span);
      && (r == Err(NoGeometry) <==> boxes == [])
      && (r.Ok? ==>
            var b := Bounds(boxes);
            && r.value.left == MaxReal(0.0, b.left - padX) && r.value.top == MaxReal(0.0, b.top - padY)
            && r.value.right == MinReal(1.0, b.right + padX) && r.value.bottom == MinReal(1.0, b.bottom + padY))
  {
    hide BoxesIn, Bounds, MaxReal, MinReal;
  }

  lemma BoundsAreAttained(boxes: seq<Box>) returns (left: Box, top: Box, right: Box, bottom: Box)
    requires boxes != []
    ensures left in boxes && top in boxes && right in boxes && bottom in boxes
    ensures var r := Bounds(boxes);
      r.left == left.x && r.top == top.y && r.right == right.x + right.width && r.bottom == bottom.y + bottom.height
  {
    hide Bounds;
    var r := Bounds(boxes);
    var i :| 0 <= i < |boxes| && boxes[i].x == r.left;
    var j :| 0 <= j < |boxes| && boxes[j].y == r.top;
    var k :| 0 <= k < |boxes| && boxes[k].x + boxes[k].width == r.right;
    var l :| 0 <= l < |boxes| && boxes[l].y + boxes[l].height == r.bottom;
    left, top, right, bottom := boxes[i], boxes[j], boxes[k], boxes[l];
  }
}
