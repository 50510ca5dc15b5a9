/** What the window decision comes to, in numbers of frames and hits. */
module WindowRules {
  import opened Prelude
  import opened Geometry
  import opened FrameScan
  import opened SourceScan
  import opened ResidualEvidence
  import opened WindowDecision

  // ----- The evidence -----

  /** Frames of a list from `lo` to `hi`. */
  ghost function Within(frames: seq<int>, lo: int, hi: int): set<int> { set f | f in frames && lo <= f <= hi }

  lemma {:induction false} CountIsWithin(frames: seq<int>, lo: int, hi: int)
    requires StrictlyAscending(frames)
    ensures CountWithin(frames, lo, hi) == |Within(frames, lo, hi)|
  {
    if frames != [] {
      CountIsWithin(frames[1..], lo, hi);
      WithinStep(frames, lo, hi);
      hide Within, StrictlyAscending;
    }
  }

  lemma WithinStep(frames: seq<int>, lo: int, hi: int)
    requires StrictlyAscending(frames) && frames != []
    ensures |Within(frames, lo, hi)| == |Within(frames[1..], lo, hi)| + if lo <= frames[0] <= hi then 1 else 0
  {
    assert frames[0] !in frames[1..];
    assert forall f :: f in frames <==> f == frames[0] || f in frames[1..] by {
      assert frames == [frames[0]] + frames[1..];
    }
    hide StrictlyAscending;
    var rest := Within(frames[1..], lo, hi);
    assert Within(frames, lo, hi) == if lo <= frames[0] <= hi then rest + {frames[0]} else rest;
  }

  lemma {:induction false} CachedHitsAscend(cache: Cache, frameCount: int, lo: int, hi: int)
    requires SoundCache(cache, frameCount)
    ensures StrictlyAscending(FramesOf(CachedHits(cache, lo, hi)))
    decreases hi - lo
  {
    if lo <= hi {
      CachedHitsAscend(cache, frameCount, lo + 1, hi);
      CachedHitsStep(cache, frameCount, lo, hi);
      var rest := FramesOf(CachedHits(cache, lo + 1, hi));
      forall i | 0 <= i < |rest|
        ensures lo < rest[i]
      {
        CachedHitsFrames(cache, frameCount, lo + 1, hi, rest[i]);
      }
      hide CachedHits, FramesOf;
    } else {
      assert FramesOf(CachedHits(cache, lo, hi)) == [];
    }
  }

  /** The frames a scan of the planned ones sees the residual on, in order. */
  ghost predicate ScannedHits(e: Evidence, sees: int -> Option<Match>) {
    && StrictlyAscending(FramesOf(e.matches))
    && forall f :: f in FramesOf(e.matches) <==> f in e.scanFrames && sees(f).Some?
  }

  /**
   * The evidence of a scan with a margin of 30 frames and 120 samples: ascending frames that include the representative, and the
   * hits on exactly those of them on which the residual is seen; preflight rows stand in only when output that is not encoded
   * misses the representative.
   */
  lemma ScannedEvidenceIs(sees: int -> Option<Match>, frameCount: int, startFrame: int, endFrame: int, residualFrames: seq<int>,
                          r: int, encoded: bool, seeds: seq<Match>)
    requires frameCount >= 1 && r in residualFrames
    requires forall f :: sees(f).Some? ==> SoundMatch(sees(f).value, f)
    ensures var e := ScannedEvidence(sees, frameCount, startFrame, endFrame, residualFrames, r, encoded, seeds);
      var plan := BuildBoundaryScanFrames(startFrame, endFrame, residualFrames, frameCount, [r], 30, 120);
      && plan.Ok? && e.scanFrames == plan.value.frames
      && StrictlyAscending(e.scanFrames) && (forall f :: f in e.scanFrames ==> InVideo(f, frameCount))
      && (InVideo(r, frameCount) ==> r in e.scanFrames)
      && (e.preflight <==> !encoded && seeds != [] && !(r in e.scanFrames && sees(r).Some?))
      && (if e.preflight then e.matches == seeds else ScannedHits(e, sees))
  {
    hide BuildBoundaryScanFrames, StrictlyAscending, CachedHits, SoundPlan, Probed, FramesOf;
    PlanIs(startFrame, endFrame, residualFrames, frameCount, r);
    var plan := BuildBoundaryScanFrames(startFrame, endFrame, residualFrames, frameCount, [r], SCAN_MARGIN, MAX_SCAN_SAMPLES).value;
    HitsOfPlan(sees, frameCount, plan.frames);
  }

  lemma PlanIs(startFrame: int, endFrame: int, residualFrames: seq<int>, frameCount: int, r: int)
    requires frameCount >= 1 && r in residualFrames
    ensures var plan := BuildBoundaryScanFrames(startFrame, endFrame, residualFrames, frameCount, [r], SCAN_MARGIN, MAX_SCAN_SAMPLES);
      && plan.Ok? && StrictlyAscending(plan.value.frames) && (forall f :: f in plan.value.frames ==> InVideo(f, frameCount))
      && (InVideo(r, frameCount) ==> r in plan.value.frames)
  {
    hide BuildBoundaryScanFrames, StrictlyAscending, Wanted, GapsAtMost;
    ScanPlanIsSound(startFrame, endFrame, residualFrames, frameCount, [r], SCAN_MARGIN, MAX_SCAN_SAMPLES);
    if InVideo(r, frameCount) {
      ScanIncludes(startFrame, endFrame, residualFrames, frameCount, r);
    }
  }

  lemma HitsOfPlan(sees: int -> Option<Match>, frameCount: int, frames: seq<int>)
    requires forall f :: f in frames ==> InVideo(f, frameCount)
    requires forall f :: sees(f).Some? ==> SoundMatch(sees(f).value, f)
    ensures var hits := FramesOf(CachedHits(Probed(map[], sees, frameCount, Elements(frames)), 0, frameCount - 1));
      StrictlyAscending(hits) && forall f :: f in hits <==> f in frames && sees(f).Some?
  {
    hide StrictlyAscending, CachedHits, FramesOf;
    var cache := Probed(map[], sees, frameCount, Elements(frames));
    CachedHitsAscend(cache, frameCount, 0, frameCount - 1);
    forall f
      ensures f in FramesOf(CachedHits(cache, 0, frameCount - 1)) <==> f in frames && sees(f).Some?
    {
      CachedHitsFrames(cache, frameCount, 0, frameCount - 1, f);
    }
  }

  // ----- A window that is kept -----

  /** Four fifths of what was looked at. */
  predicate Dense(hits: nat, looked: nat) { 5 * hits >= 4 * Max(1, looked) }

  lemma DenseIsRatio(hits: nat, looked: nat)
    ensures Ratio(hits, looked) >= 0.80 <==> Dense(hits, looked)
  {
    var m := Max(1, looked);
    QuotientOrder(hits as real, 0.80, m as real);
    assert 5.0 * hits as real >= 4.0 * m as real <==> 5 * hits >= 4 * m;
  }

  /** Two frames of padding around a single hit, one around several, cut to the video. */
  predicate Flashes(res: Result<Window, DecisionError>, lo: int, hi: int, hits: nat, frameCount: int) {
    && res.Ok? && res.value.path == Flash
    && (hits == 1 ==> res.value.start == Max(0, lo - 2) && res.value.end == Min(frameCount - 1, hi + 2))
    && (hits != 1 ==> res.value.start == Max(0, lo - 1) && res.value.end == Min(frameCount - 1, hi + 1))
  }

  /**
   * The rule for evidence that ends where a window ends: dense hits keep the window; sparse ones are an error unless the output is
   * encoded or the evidence is from preflight and there are enough of them, and then a flash unless they span too far.
   */
  ghost predicate KeptRule(res: Result<Window, DecisionError>, start: int, end: int, e: Evidence, frameCount: int, encoded: bool, confirmed: bool) {
    var hits := |e.matches|;
    var enough := if e.preflight then hits >= 2 else encoded && hits >= if confirmed then 1 else 2;
    if hits >= 1 && Dense(hits, |Within(e.scanFrames, start, end)|) then res == Ok(Window(start, end, e.matches, Kept))
    else if !enough then res == Err(UnstableSourceBoundary)
    else if end - start > 12 then res == Err(FlashWindowTooWide)
    else Flashes(res, start, end, hits, frameCount) && res.value.matches == e.matches
  }

  /** The hits begin with the window and end with it. */
  predicate EndsMeet(e: Evidence, start: int, end: int) {
    var hits := FramesOf(e.matches);
    hits != [] ==> hits[0] == start && Last(hits) == end
  }

  lemma LeastAndGreatest(hits: seq<int>, start: int, end: int)
    requires hits != [] && hits[0] == start && Last(hits) == end && forall f :: f in hits ==> start <= f <= end
    ensures Least(hits[0], hits) == start && Greatest(hits[0], hits) == end
  {
    assert hits[0] in hits && Last(hits) in hits;
  }

  lemma KeepOrPadRule(start: int, end: int, e: Evidence, frameCount: int, encoded: bool, confirmed: bool, res: Result<Window, DecisionError>)
    requires StrictlyAscending(e.scanFrames) && EndsMeet(e, start, end) && forall f :: f in FramesOf(e.matches) ==> start <= f <= end
    requires match KeepOrPad(start, end, FramesOf(e.matches), e.scanFrames, frameCount, encoded, e.preflight, if confirmed then 1 else 2, None)
      case Err(x) => res == Err(x)
      case Ok((lo, hi, path)) => res == Ok(Window(lo, hi, e.matches, path))
    requires e.preflight ==> !confirmed
    ensures KeptRule(res, start, end, e, frameCount, encoded, confirmed)
  {
    var hits := FramesOf(e.matches);
    CountIsWithin(e.scanFrames, start, end);
    DenseIsRatio(|hits|, CountWithin(e.scanFrames, start, end));
    hide CountWithin, Within, Ratio, Least, Greatest, StrictlyAscending, Dense, FramesOf;
    if hits != [] {
      LeastAndGreatest(hits, start, end);
    }
  }

  /** Nothing is decided by a track, and the Phase-1 window is not in dispute: the rule of the kept window applies. */
  lemma WhenWindowIsKept(res: Result<Window, DecisionError>, cache: Cache, sees: int -> Option<Match>, frameCount: int, e: Evidence,
                         initial: (int, int, bool), r: int, encoded: bool, confirmed: bool)
    requires SourceDecision(res, cache, sees, frameCount, e, initial, r, encoded, confirmed)
    requires StrictlyAscending(e.scanFrames) && (confirmed ==> encoded) && (e.preflight ==> !encoded)
    requires !initial.2 && EndsMeet(e, initial.0, initial.1) && forall f :: f in FramesOf(e.matches) ==> initial.0 <= f <= initial.1
    requires r in FramesOf(e.matches) || !confirmed
    ensures KeptRule(res, initial.0, initial.1, e, frameCount, encoded, confirmed)
  {
    hide KeepOrPad, InferredFrom, KeptRule, StrictlyAscending;
    KeepOrPadRule(initial.0, initial.1, e, frameCount, encoded, confirmed, res);
  }

  // ----- A window that is inferred -----

  /** Cached frames of a range, and those of them that are hits. */
  ghost function Looked(cache: Cache, lo: int, hi: int): set<int> { set f | f in cache && lo <= f <= hi }

  ghost function Seen(cache: Cache, lo: int, hi: int): set<int> { set f | f in cache && lo <= f <= hi && cache[f].Some? }

  lemma {:induction false} CachedCountIs(cache: Cache, lo: int, hi: int)
    ensures CachedCount(cache, lo, hi) == |Looked(cache, lo, hi)| && |CachedHits(cache, lo, hi)| == |Seen(cache, lo, hi)|
    decreases hi - lo
  {
    if lo <= hi {
      CachedCountIs(cache, lo + 1, hi);
      LookedStep(cache, lo, hi);
      hide Looked, Seen;
    } else {
      assert Looked(cache, lo, hi) == {} && Seen(cache, lo, hi) == {};
    }
  }

  lemma LookedStep(cache: Cache, lo: int, hi: int)
    requires lo <= hi
    ensures |Looked(cache, lo, hi)| == |Looked(cache, lo + 1, hi)| + if lo in cache then 1 else 0
    ensures |Seen(cache, lo, hi)| == |Seen(cache, lo + 1, hi)| + if lo in cache && cache[lo].Some? then 1 else 0
  {
    var looked, seen := Looked(cache, lo + 1, hi), Seen(cache, lo + 1, hi);
    assert Looked(cache, lo, hi) == if lo in cache then looked + {lo} else looked;
    assert Seen(cache, lo, hi) == if lo in cache && cache[lo].Some? then seen + {lo} else seen;
  }

  /** The rule for a grown run from `start` to `end`. */
  ghost predicate InferredRule(res: Result<Window, DecisionError>, cache: Cache, frameCount: int, start: int, end: int, encoded: bool,
                               preflight: bool, confirmed: bool)
  {
    var hits := |Seen(cache, start, end)|;
    var enough := if preflight then hits >= 2 else encoded && hits >= if confirmed then 1 else 2;
    if Dense(hits, |Looked(cache, start, end)|) then res == Ok(Window(start, end, CachedHits(cache, start, end), Inferred))
    else if !enough then res == Err(UnstableInferredBoundary)
    else if end - start > 12 then res == Err(FlashWindowTooWide)
    else Flashes(res, start, end, hits, frameCount) && res.value.matches == CachedHits(cache, res.value.start, res.value.end)
  }

  lemma SettledRule(cache: Cache, frameCount: int, start: int, end: int, encoded: bool, preflight: bool, confirmed: bool)
    requires preflight ==> !confirmed
    ensures InferredRule(SettledWindow(cache, frameCount, start, end, encoded, preflight, if confirmed then 1 else 2),
                         cache, frameCount, start, end, encoded, preflight, confirmed)
  {
    CachedCountIs(cache, start, end);
    DenseIsRatio(|CachedHits(cache, start, end)|, CachedCount(cache, start, end));
    hide CachedHits, CachedCount, Looked, Seen, Ratio, Dense;
  }

  /** The gap of a run: at least 1, and otherwise the most frames left out between two neighbouring scanned ones. */
  ghost predicate IsGap(frames: seq<int>, gap: int) {
    && gap >= 1 && (forall i :: 0 <= i < |frames| - 1 ==> frames[i + 1] - frames[i] <= gap + 1)
    && (gap > 1 ==> exists i :: 0 <= i < |frames| - 1 && frames[i + 1] - frames[i] == gap + 1)
  }

  lemma {:induction false} GapIsAttained(frames: seq<int>)
    requires |frames| >= 2
    ensures exists i :: 0 <= i < |frames| - 1 && frames[i + 1] - frames[i] == MaxSampleGap(frames)
  {
    var rest := frames[1..];
    if |frames| == 2 || frames[1] - frames[0] >= MaxSampleGap(rest) {
      assert frames[0 + 1] - frames[0] == MaxSampleGap(frames);
    } else {
      GapIsAttained(rest);
      var i :| 0 <= i < |rest| - 1 && rest[i + 1] - rest[i] == MaxSampleGap(rest);
      assert frames[(i + 1) + 1] - frames[i + 1] == MaxSampleGap(frames);
    }
  }

  lemma RunGapIsGap(frames: seq<int>)
    ensures IsGap(frames, RunGap(frames))
  {
    hide MaxSampleGap;
    forall i | 0 <= i < |frames| - 1
      ensures frames[i + 1] - frames[i] <= MaxSampleGap(frames)
    {
      MaxSampleGapBounds(frames, i);
    }
    if |frames| >= 2 {
      GapIsAttained(frames);
    } else {
      FewFramesGap(frames);
    }
  }

  lemma FewFramesGap(frames: seq<int>)
    requires |frames| < 2
    ensures RunGap(frames) == 1
  {
  }

  /** One run of hits around the representative, grown to the misses around it, and the rule on what it covers. */
  ghost predicate InferredOnRun(res: Result<Window, DecisionError>, cache: Cache, sees: int -> Option<Match>, frameCount: int, e: Evidence,
                                gap: int, r: int, encoded: bool, confirmed: bool)
  {
    && IsGap(e.scanFrames, gap)
    && exists start, end ::
         && GrownRun(cache, sees, frameCount, FramesOf(e.matches), gap, r, start, end)
         && InferredRule(res, cache, frameCount, start, end, encoded, e.preflight, confirmed)
  }

  /** A disputed or missing window is inferred: an error without a hit on the representative, else the rule on the one grown run. */
  lemma WhenWindowIsInferred(res: Result<Window, DecisionError>, cache: Cache, sees: int -> Option<Match>, frameCount: int, e: Evidence,
                             initial: (int, int, bool), r: int, encoded: bool, confirmed: bool)
    requires SourceDecision(res, cache, sees, frameCount, e, initial, r, encoded, confirmed)
    requires (confirmed ==> encoded) && (e.preflight ==> !encoded)
    requires initial.2 || !EndsMeet(e, initial.0, initial.1)
    ensures var hits := FramesOf(e.matches);
      if r !in hits then res == Err(if confirmed then NoBoundedEncodedGeometry else SourceConfirmationFailed(AnchorNotConfirmed))
      else exists gap :: InferredOnRun(res, cache, sees, frameCount, e, gap, r, encoded, confirmed)
  {
    hide KeepOrPad, InferredRule, GrownRun, SettledWindow, RunGap, IsGap;
    if r in FramesOf(e.matches) {
      var start, end :| GrownRun(cache, sees, frameCount, FramesOf(e.matches), RunGap(e.scanFrames), r, start, end)
        && res == SettledWindow(cache, frameCount, start, end, encoded, e.preflight, if confirmed then 1 else 2);
      SettledRule(cache, frameCount, start, end, encoded, e.preflight, confirmed);
      RunGapIsGap(e.scanFrames);
      assert InferredOnRun(res, cache, sees, frameCount, e, RunGap(e.scanFrames), r, encoded, confirmed);
    }
  }

  // ----- Where the decision starts -----

  lemma {:induction false} CountIsMultiplicity<T>(s: seq<T>, x: T)
    ensures CountOf(s, x) == multiset(s)[x]
  {
    if s != [] {
      CountIsMultiplicity(s[1..], x);
      assert s == [s[0]] + s[1..];
    }
  }

  /** No window is more frequent, and none before it as frequent. */
  ghost predicate MostFrequent(windows: seq<(int, int)>, k: int)
    requires 0 <= k < |windows|
  {
    && (forall i :: 0 <= i < |windows| ==> multiset(windows)[windows[i]] <= multiset(windows)[windows[k]])
    && (forall i :: 0 <= i < k ==> multiset(windows)[windows[i]] < multiset(windows)[windows[k]])
  }

  /** The most frequent window where at least half of the rows have it; otherwise a broad one as a fallback, or an error. */
  ghost predicate StartsWith(w: Result<(int, int, bool), DecisionError>, windows: seq<(int, int)>, k: int, r: int, frameCount: int, fallback: bool) {
    && 0 <= k < |windows| && MostFrequent(windows, k)
    && if 2 * multiset(windows)[windows[k]] >= |windows| then w == Ok((windows[k].0, windows[k].1, false))
       else w == if fallback then Broad(r, frameCount) else Err(NoTimelineWindow(AmbiguousTemporalWindow))
  }

  function Broad(r: int, frameCount: int): Result<(int, int, bool), DecisionError> { Ok((Max(0, r - 30), Min(frameCount - 1, r + 120), true)) }

  /** The row's window, when it covers the frame: an absent start or one of zero is 0, an absent end covers nothing, one of zero is 0. */
  ghost predicate WindowOf(row: TimelineRow, f: int, w: (int, int)) {
    && row.end.Some? && w == ((if row.start.Some? then row.start.value else 0), row.end.value) && w.0 <= f <= w.1
  }

  /** The windows are those of the rows that cover the frame, in order: `kept` lists these rows. */
  ghost predicate ActiveWindows(timeline: seq<TimelineRow>, f: int, windows: seq<(int, int)>, kept: seq<int>) {
    && |kept| == |windows| && (forall i, j :: 0 <= i < j < |kept| ==> kept[i] < kept[j])
    && (forall i :: 0 <= i < |kept| ==> 0 <= kept[i] < |timeline| && WindowOf(timeline[kept[i]], f, windows[i]))
    && (forall k, w :: 0 <= k < |timeline| && WindowOf(timeline[k], f, w) ==> k in kept)
  }

  lemma FirstWindow(row: TimelineRow, f: int)
    requires f >= 0
    ensures Covers(row, f) <==> WindowOf(row, f, (OrDefault(row.start, 0), OrDefault(row.end, 0)))
    ensures forall w :: WindowOf(row, f, w) ==> w == (OrDefault(row.start, 0), OrDefault(row.end, 0))
  {
  }

  lemma {:induction false} WindowsAre(timeline: seq<TimelineRow>, f: int) returns (kept: seq<int>)
    requires f >= 0
    ensures ActiveWindows(timeline, f, WindowsAt(timeline, f), kept)
  {
    if timeline == [] {
      kept := [];
    } else {
      var row, rest := timeline[0], timeline[1..];
      var later := WindowsAre(rest, f);
      FirstWindow(row, f);
      kept := Map(later, (k: int) => k + 1);
      ShiftedWindows(row, rest, f, WindowsAt(rest, f), later, kept);
      assert timeline == [row] + rest;
      hide ActiveWindows, LaterWindows, Covers, WindowOf;
      if Covers(row, f) {
        WithFirst(timeline, f, WindowsAt(rest, f), kept, (OrDefault(row.start, 0), OrDefault(row.end, 0)));
        kept := [0] + kept;
      } else {
        WithoutFirst(timeline, f, WindowsAt(rest, f), kept);
        assert [] + WindowsAt(rest, f) == WindowsAt(rest, f);
      }
    }
  }

  /** The same for the rows after the first. */
  ghost predicate LaterWindows(timeline: seq<TimelineRow>, f: int, windows: seq<(int, int)>, kept: seq<int>) {
    && |kept| == |windows| && (forall i, j :: 0 <= i < j < |kept| ==> kept[i] < kept[j])
    && (forall i :: 0 <= i < |kept| ==> 0 < kept[i] < |timeline| && WindowOf(timeline[kept[i]], f, windows[i]))
    && (forall k, w :: 0 < k < |timeline| && WindowOf(timeline[k], f, w) ==> k in kept)
  }

  lemma ShiftedWindows(row: TimelineRow, rest: seq<TimelineRow>, f: int, windows: seq<(int, int)>, later: seq<int>, shifted: seq<int>)
    requires ActiveWindows(rest, f, windows, later)
    requires |shifted| == |later| && forall i :: 0 <= i < |later| ==> shifted[i] == later[i] + 1
    ensures LaterWindows([row] + rest, f, windows, shifted)
  {
    hide WindowOf;
    var timeline := [row] + rest;
    forall k, w | 0 < k < |timeline| && WindowOf(timeline[k], f, w)
      ensures k in shifted
    {
      assert rest[k - 1] == timeline[k];
      var i :| 0 <= i < |later| && later[i] == k - 1;
      assert shifted[i] == k;
    }
    forall i | 0 <= i < |later|
      ensures 0 < shifted[i] < |timeline| && WindowOf(timeline[shifted[i]], f, windows[i])
    {
      assert timeline[shifted[i]] == rest[later[i]];
    }
  }

  lemma WithoutFirst(timeline: seq<TimelineRow>, f: int, windows: seq<(int, int)>, kept: seq<int>)
    requires timeline != [] && LaterWindows(timeline, f, windows, kept) && forall w :: !WindowOf(timeline[0], f, w)
    ensures ActiveWindows(timeline, f, windows, kept)
  {
    hide WindowOf;
  }

  lemma WithFirst(timeline: seq<TimelineRow>, f: int, windows: seq<(int, int)>, kept: seq<int>, first: (int, int))
    requires timeline != [] && LaterWindows(timeline, f, windows, kept) && WindowOf(timeline[0], f, first)
    ensures ActiveWindows(timeline, f, [first] + windows, [0] + kept)
  {
    hide WindowOf;
    var all := [0] + kept;
    assert all[0] == 0 && forall i :: 0 < i < |all| ==> all[i] == kept[i - 1];
    forall k, w | 0 <= k < |timeline| && WindowOf(timeline[k], f, w)
      ensures k in all
    {
      assert k in kept ==> k in all;
    }
  }

  /** The window of at least half of the rows active on the frame, the first of the most frequent; without any row a broad window. */
  lemma WhereItStarts(timeline: seq<TimelineRow>, r: int, frameCount: int, fallback: bool)
    ensures var windows, w := WindowsAt(timeline, r), InitialWindow(timeline, r, frameCount, fallback);
      if windows == [] then w == Broad(r, frameCount) else exists k :: StartsWith(w, windows, k, r, frameCount, fallback)
  {
    var windows := WindowsAt(timeline, r);
    InitialWindowBy(timeline, r, frameCount, fallback);
    if windows != [] {
      MostCommonIs(windows);
      hide WindowsAt, CountOf, MostCommon, InitialWindow, MostFrequent;
      assert StartsWith(InitialWindow(timeline, r, frameCount, fallback), windows, MostCommon(windows, |windows|), r, frameCount, fallback);
    }
  }

  lemma InitialWindowBy(timeline: seq<TimelineRow>, r: int, frameCount: int, fallback: bool)
    ensures var windows, w := WindowsAt(timeline, r), InitialWindow(timeline, r, frameCount, fallback);
      if windows == [] then w == Broad(r, frameCount)
      else
        var best := windows[MostCommon(windows, |windows|)];
        w == if 2 * CountOf(windows, best) >= |windows| then Ok((best.0, best.1, false))
             else if fallback then Broad(r, frameCount) else Err(NoTimelineWindow(AmbiguousTemporalWindow))
  {
    hide WindowsAt, Ratio, CountOf, MostCommon;
    var windows := WindowsAt(timeline, r);
    if windows != [] {
      HalfRatio(CountOf(windows, windows[MostCommon(windows, |windows|)]), |windows|);
    }
  }

  lemma MostCommonIs(windows: seq<(int, int)>)
    requires windows != []
    ensures var k := MostCommon(windows, |windows|);
      k < |windows| && MostFrequent(windows, k) && CountOf(windows, windows[k]) == multiset(windows)[windows[k]]
  {
    hide CountOf, MostCommon;
    var k := MostCommon(windows, |windows|);
    forall i | 0 <= i < |windows|
      ensures CountOf(windows, windows[i]) == multiset(windows)[windows[i]]
    {
      CountIsMultiplicity(windows, windows[i]);
    }
  }

  // ----- The whole decision -----

  /** What is decided on scanned evidence, case by case. */
  ghost predicate SourceRule(res: Result<Window, DecisionError>, cache: Cache, sees: int -> Option<Match>, frameCount: int, e: Evidence,
                             initial: (int, int, bool), r: int, encoded: bool, confirmed: bool)
  {
    var hits := FramesOf(e.matches);
    if r !in hits && confirmed then res == Err(NoBoundedEncodedGeometry)
    else if initial.2 || !EndsMeet(e, initial.0, initial.1) then
      if r !in hits then res == Err(SourceConfirmationFailed(AnchorNotConfirmed))
      else exists gap :: InferredOnRun(res, cache, sees, frameCount, e, gap, r, encoded, confirmed)
    else KeptRule(res, initial.0, initial.1, e, frameCount, encoded, confirmed)
  }

  /**
   * Without a track: the Phase-1 window is kept exactly when the hits begin and end with it and are four fifths of the frames
   * scanned in it; the other outcomes each have their own exact condition.
   */
  lemma WhenSourceDecides(res: Result<Window, DecisionError>, cache: Cache, sees: int -> Option<Match>, frameCount: int, cluster: Cluster,
                          timeline: seq<TimelineRow>, encoded: bool, preflight: Preflight, similar: (string, string) -> real, seeds: seq<Match>)
    requires cluster.detections != [] && frameCount >= 1 && InVideo(Representative(cluster).frame, frameCount)
    requires AreSeeds(seeds, preflight, similar, cluster, frameCount)
    requires SourceOutcome(res, cache, sees, frameCount, cluster, timeline, encoded, seeds)
    requires forall f :: sees(f).Some? ==> SoundMatch(sees(f).value, f)
    ensures var r := Representative(cluster).frame;
      var confirmed := encoded && exists i :: 0 <= i < |cluster.detections| && cluster.detections[i].confirmation.onAdjacentFrame;
      match InitialWindow(timeline, r, frameCount, seeds != [])
      case Err(error) => res == Err(error)
      case Ok(initial) =>
        SourceRule(res, cache, sees, frameCount,
                   ScannedEvidence(sees, frameCount, initial.0, initial.1, DetectionFrames(cluster.detections), r, encoded, seeds),
                   initial, r, encoded, confirmed)
  {
    var r := Representative(cluster).frame;
    InitialWindowAround(timeline, r, frameCount, seeds != []);
    RepresentativeIsObserved(cluster);
    SeedFrames(seeds, preflight, similar, cluster, frameCount);
    hide Representative, InitialWindow, AreSeeds, SourceDecision, SourceRule, ScannedEvidence, SoundMatch;
    var w := InitialWindow(timeline, r, frameCount, seeds != []);
    if w.Ok? {
      var (start, end, broad) := w.value;
      var e := ScannedEvidence(sees, frameCount, start, end, DetectionFrames(cluster.detections), r, encoded, seeds);
      ScannedEvidenceIs(sees, frameCount, start, end, DetectionFrames(cluster.detections), r, encoded, seeds);
      DecisionFollowsRule(res, cache, sees, frameCount, e, w.value, r, encoded, encoded && AnyConfirmed(cluster.detections));
    }
  }

  /** Recovered rows are the representative frame and a neighbour. */
  lemma SeedFrames(seeds: seq<Match>, preflight: Preflight, similar: (string, string) -> real, cluster: Cluster, frameCount: int)
    requires cluster.detections != [] && AreSeeds(seeds, preflight, similar, cluster, frameCount)
    ensures seeds != [] ==> |seeds| == 2 && FramesOf(seeds)[0] == Representative(cluster).frame && Representative(cluster).frame in FramesOf(seeds)
  {
    if seeds != [] {
      assert FramesOf(seeds)[0] == seeds[0].frame;
      hide Overlap, AreaSimilarity, ReadRect, FramesOf;
      assert FramesOf(seeds)[0] in FramesOf(seeds);
    }
  }

  lemma DecisionFollowsRule(res: Result<Window, DecisionError>, cache: Cache, sees: int -> Option<Match>, frameCount: int, e: Evidence,
                            initial: (int, int, bool), r: int, encoded: bool, confirmed: bool)
    requires SourceDecision(res, cache, sees, frameCount, e, initial, r, encoded, confirmed)
    requires StrictlyAscending(e.scanFrames) && (confirmed ==> encoded) && (e.preflight ==> !encoded)
    requires !initial.2 ==> initial.0 <= r <= initial.1
    requires if e.preflight then |e.matches| == 2 && FramesOf(e.matches)[0] == r else StrictlyAscending(FramesOf(e.matches))
    ensures SourceRule(res, cache, sees, frameCount, e, initial, r, encoded, confirmed)
  {
    var hits := FramesOf(e.matches);
    if r !in hits && confirmed {
      hide InferredFrom, KeepOrPad, InferredRule, KeptRule;
    } else if initial.2 || !EndsMeet(e, initial.0, initial.1) {
      hide SourceDecision, InferredOnRun, KeptRule, EndsMeet, FramesOf;
      WhenWindowIsInferred(res, cache, sees, frameCount, e, initial, r, encoded, confirmed);
    } else {
      HitsInWindow(e, initial, r);
      hide SourceDecision, KeptRule, EndsMeet, FramesOf;
      WhenWindowIsKept(res, cache, sees, frameCount, e, initial, r, encoded, confirmed);
    }
  }

  lemma HitsInWindow(e: Evidence, initial: (int, int, bool), r: int)
    requires EndsMeet(e, initial.0, initial.1) && initial.0 <= r <= initial.1
    requires if e.preflight then |e.matches| == 2 && FramesOf(e.matches)[0] == r else StrictlyAscending(FramesOf(e.matches))
    ensures forall f :: f in FramesOf(e.matches) ==> initial.0 <= f <= initial.1
  {
    var hits := FramesOf(e.matches);
    hide FramesOf;
    forall f | f in hits
      ensures initial.0 <= f <= initial.1
    {
      var i :| 0 <= i < |hits| && hits[i] == f;
      assert i > 0 ==> e.preflight || hits[0] < hits[i];
      assert i < |hits| - 1 ==> e.preflight || hits[i] < hits[|hits| - 1];
    }
  }

  /** A track settles its own window when its observations end there, and one frame more on each side otherwise. */
  lemma WhenTrackDecides(res: Result<Window, DecisionError>, track: EncodedAuthority, frameCount: int, text: string)
    requires TrackOutcome(res, track, frameCount, text) && |track.hitFrames| >= 2
    ensures res.Ok?
    ensures (res.value.start, res.value.end) ==
      if track.hitFrames[0] == track.start && track.hitFrames[|track.hitFrames| - 1] == track.end then (track.start, track.end)
      else (Max(0, track.start - 1), Min(frameCount - 1, track.end + 1))
  {
    hide KeepOrPad, GeometryOf, ShowsOnly, FramesOf;
    TrackSettles(track, frameCount, false, 1);
  }
}
