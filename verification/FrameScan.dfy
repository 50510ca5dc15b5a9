/** Frame lists: the bounded boundary scan and the hit run around an anchor frame. */
module FrameScan {
  import opened Prelude

  ghost predicate StrictlyAscending(s: seq<int>) {
    forall i, j :: 0 <= i < j < |s| ==> s[i] < s[j]
  }

  function InsertFrame(x: int, s: seq<int>): seq<int> {
    if s == [] || x < s[0] then [x] + s
    else if x == s[0] then s
    else [s[0]] + InsertFrame(x, s[1..])
  }

  /** The frames in ascending order, each once. */
  function SortedDistinct(frames: seq<int>): seq<int> {
    if frames == [] then [] else InsertFrame(frames[0], SortedDistinct(frames[1..]))
  }

  lemma {:induction false} InsertFrameMembers(x: int, s: seq<int>, y: int)
    ensures y in InsertFrame(x, s) <==> y == x || y in s
  {
    if s != [] && s[0] < x {
      InsertFrameMembers(x, s[1..], y);
      assert s == [s[0]] + s[1..];
    }
  }

  lemma {:induction false} InsertFrameAscends(x: int, s: seq<int>)
    requires StrictlyAscending(s)
    ensures StrictlyAscending(InsertFrame(x, s))
    ensures s != [] ==> InsertFrame(x, s)[0] == Min(x, s[0])
  {
    if s != [] && s[0] < x {
      InsertFrameAscends(x, s[1..]);
      ConsAscends(s[0], InsertFrame(x, s[1..]));
    }
  }

  lemma ConsAscends(x: int, s: seq<int>)
    requires StrictlyAscending(s) && (s != [] ==> x < s[0])
    ensures StrictlyAscending([x] + s)
  {
  }

  lemma {:induction false} SortedDistinctIs(frames: seq<int>)
    ensures StrictlyAscending(SortedDistinct(frames))
    ensures forall y :: y in SortedDistinct(frames) <==> y in frames
  {
    if frames != [] {
      SortedDistinctIs(frames[1..]);
      var rest := SortedDistinct(frames[1..]);
      InsertFrameAscends(frames[0], rest);
      forall y
        ensures y in InsertFrame(frames[0], rest) <==> y in frames
      {
        InsertFrameMembers(frames[0], rest, y);
        assert frames == [frames[0]] + frames[1..];
      }
    }
  }

  // ----- Boundary scan -----

  datatype ScanError = NoFrameAuthority | TooFewSamples

  datatype ScanPlan = ScanPlan(frames: seq<int>, start: int, end: int)

  function Clamp(v: int, lo: int, hi: int): int { Max(lo, Min(hi, v)) }

  function ClampAll(values: seq<int>, lo: int, hi: int): (r: seq<int>)
    ensures |r| == |values|
  {
    if values == [] then [] else [Clamp(values[0], lo, hi)] + ClampAll(values[1..], lo, hi)
  }

  function Least(first: int, rest: seq<int>): (r: int)
    ensures r <= first && forall v :: v in rest ==> r <= v
    ensures r == first || r in rest
    decreases |rest|
  {
    if rest == [] then first
    else
      assert rest == [rest[0]] + rest[1..];
      Least(Min(first, rest[0]), rest[1..])
  }

  function Greatest(first: int, rest: seq<int>): (r: int)
    ensures first <= r && forall v :: v in rest ==> v <= r
    ensures r == first || r in rest
    decreases |rest|
  {
    if rest == [] then first
    else
      assert rest == [rest[0]] + rest[1..];
      Greatest(Max(first, rest[0]), rest[1..])
  }

  /** The frames lo, lo + 1, ..., hi. */
  function Range(lo: int, hi: int): (r: seq<int>)
    ensures |r| == Max(0, hi - lo + 1)
    ensures forall i :: 0 <= i < |r| ==> r[i] == lo + i
    decreases hi - lo
  {
    if hi < lo then [] else [lo] + Range(lo + 1, hi)
  }

  /** The first element and every `step`-th one after it. */
  function EveryNth(s: seq<int>, step: int): seq<int>
    requires step >= 1
    decreases |s|
  {
    if s == [] then [] else [s[0]] + EveryNth(s[Min(step, |s|)..], step)
  }

  function CeilDiv(n: nat, d: nat): nat
    requires d > 0
  {
    (n + d - 1) / d
  }

  function ScanStart(startFrame: int, observed: seq<int>, margin: int): int {
    Max(0, Least(startFrame, observed) - Max(0, margin))
  }

  function ScanEnd(endFrame: int, observed: seq<int>, margin: int, frameCount: int): int {
    Min(frameCount - 1, Greatest(endFrame, observed) + Max(0, margin))
  }

  function SampleStep(scanned: nat, maxSamples: nat): (step: nat)
    requires maxSamples >= 2
    ensures step >= 1
  {
    if scanned <= maxSamples then 1 else Max(1, CeilDiv(scanned, maxSamples))
  }

  /** The frames a plan must hold, before clamping to the scanned range. */
  function Wanted(startFrame: int, endFrame: int, observed: seq<int>, requiredFrames: seq<int>, start: int, end: int): seq<int> {
    requiredFrames + observed + [start, startFrame, endFrame, end]
  }

  function BuildBoundaryScanFrames(startFrame: int, endFrame: int, residualFrames: seq<int>, frameCount: int,
                                   requiredFrames: seq<int>, margin: int, maxSamples: int): Result<ScanPlan, ScanError>
  {
    if frameCount < 1 then Err(NoFrameAuthority)
    else
      var observed := ClampAll(residualFrames, 0, frameCount - 1);
      var start, end := ScanStart(startFrame, observed, margin), ScanEnd(endFrame, observed, margin, frameCount);
      var full := Range(start, end);
      if maxSamples < 2 then Err(TooFewSamples)
      else if |full| <= maxSamples then Ok(ScanPlan(full, start, end))
      else
        var required := ClampAll(Wanted(startFrame, endFrame, observed, requiredFrames, start, end), start, end);
        Ok(ScanPlan(SortedDistinct(EveryNth(full, SampleStep(|full|, maxSamples)) + required), start, end))
  }

  /** lo, lo + step, ... up to hi */
  function Samples(lo: int, hi: int, step: nat): seq<int>
    requires step >= 1
    decreases hi - lo
  {
    if hi < lo then [] else [lo] + Samples(lo + step, hi, step)
  }

  lemma {:induction false} EveryNthOfRange(lo: int, hi: int, step: nat)
    requires step >= 1
    ensures EveryNth(Range(lo, hi), step) == Samples(lo, hi, step)
    decreases hi - lo
  {
    if lo <= hi {
      EveryNthOfRange(lo + step, hi, step);
      assert Range(lo, hi)[Min(step, hi - lo + 1)..] == Range(lo + step, hi);
    }
  }

  ghost predicate NextWithin(s: seq<int>, f: int, step: int) {
    exists x :: x in s && f < x <= f + step
  }

  /** The samples start at lo and stay in the range. */
  lemma {:induction false} SamplesCover(lo: int, hi: int, step: nat)
    requires step >= 1 && lo <= hi
    ensures lo in Samples(lo, hi, step)
    ensures forall x :: x in Samples(lo, hi, step) ==> lo <= x <= hi
    decreases hi - lo
  {
    if lo + step <= hi {
      SamplesCover(lo + step, hi, step);
    } else {
      assert Samples(lo, hi, step) == [lo];
    }
  }

  lemma {:induction false} SamplesLength(lo: int, hi: int, step: nat)
    requires step >= 1 && lo <= hi
    ensures |Samples(lo, hi, step)| >= 1 && (|Samples(lo, hi, step)| - 1) * step <= hi - lo
    decreases hi - lo
  {
    if lo + step <= hi {
      SamplesLength(lo + step, hi, step);
      var n := |Samples(lo + step, hi, step)|;
      assert n * step == (n - 1) * step + step;
    }
  }

  lemma {:induction false} SampleAfter(lo: int, hi: int, step: nat, f: int)
    requires step >= 1 && lo <= f && f + step <= hi
    ensures NextWithin(Samples(lo, hi, step), f, step)
    decreases hi - lo
  {
    if lo + step <= f {
      SampleAfter(lo + step, hi, step, f);
      var x :| x in Samples(lo + step, hi, step) && f < x <= f + step;
      assert x in Samples(lo, hi, step);
    } else {
      SamplesCover(lo + step, hi, step);
      assert lo + step in Samples(lo, hi, step);
    }
  }

  lemma CeilDivBounds(n: nat, d: nat)
    requires d > 0
    ensures CeilDiv(n, d) * d >= n
    ensures n > 0 ==> CeilDiv(n, d) >= 1
  {
  }

  lemma SampleCount(count: nat, step: nat, scanned: nat, maxSamples: nat)
    requires count >= 1 && step >= 1 && (count - 1) * step < scanned <= maxSamples * step
    ensures count <= maxSamples
  {
  }

  predicate Nonempty(plan: ScanPlan) { plan.start <= plan.end }

  ghost predicate GapsAtMost(frames: seq<int>, step: int) {
    forall i :: 0 <= i < |frames| - 1 ==> frames[i + 1] - frames[i] <= step
  }

  /** Inserting frames that follow each other within `step` leaves no wider gap. */
  lemma GapsFromCover(frames: seq<int>, end: int, step: int)
    requires StrictlyAscending(frames)
    requires forall f :: f in frames ==> f <= end
    requires forall f :: f in frames ==> f + step > end || NextWithin(frames, f, step)
    ensures GapsAtMost(frames, step)
  {
    forall i | 0 <= i < |frames| - 1
      ensures frames[i + 1] - frames[i] <= step
    {
      var f := frames[i];
      assert f in frames && frames[i + 1] in frames;
      if f + step <= end {
        var x :| x in frames && f < x <= f + step;
        var j :| 0 <= j < |frames| && frames[j] == x;
        assert j >= i + 1;
      }
    }
  }

  lemma SampledPlan(required: seq<int>, start: int, end: int, step: nat)
    requires step >= 1 && start <= end
    requires forall v :: v in required ==> start <= v <= end
    ensures var frames := SortedDistinct(Samples(start, end, step) + required);
      && StrictlyAscending(frames)
      && (forall f :: f in frames ==> start <= f <= end)
      && (forall v :: v in required ==> v in frames)
      && GapsAtMost(frames, step)
  {
    var samples := Samples(start, end, step);
    var frames := SortedDistinct(samples + required);
    SortedDistinctIs(samples + required);
    SamplesCover(start, end, step);
    forall f | f in frames && f + step <= end
      ensures NextWithin(frames, f, step)
    {
      SampleAfter(start, end, step, f);
      var x :| x in samples && f < x <= f + step;
      assert x in frames;
    }
    GapsFromCover(frames, end, step);
  }

  lemma UnionCardinality(a: seq<int>, b: seq<int>, shared: int)
    requires shared in a && shared in b
    ensures |Elements(a + b)| + 1 <= |Elements(a)| + |Elements(b)|
  {
    assert Elements(a + b) == Elements(a) + (Elements(b) - {shared});
  }

  lemma SampleBudget(start: int, end: int, maxSamples: nat)
    requires maxSamples >= 2 && end - start + 1 > maxSamples
    ensures |Samples(start, end, SampleStep(end - start + 1, maxSamples))| <= maxSamples
  {
    var scanned := end - start + 1;
    var step := SampleStep(scanned, maxSamples);
    CeilDivBounds(scanned, maxSamples);
    SamplesLength(start, end, step);
    SampleCount(|Samples(start, end, step)|, step, scanned, maxSamples);
  }

  lemma PlanLength(samples: seq<int>, required: seq<int>, start: int)
    requires start in samples && start in required
    ensures |SortedDistinct(samples + required)| <= |samples| + |required| - 1
  {
    var all := samples + required;
    var frames := SortedDistinct(all);
    SortedDistinctIs(all);
    DistinctCardinality(frames);
    assert forall y: int :: y in frames <==> y in all;
    SameElements(frames, all);
    UnionCardinality(samples, required, start);
    CardinalityAtMostLength(samples);
    CardinalityAtMostLength(required);
  }

  ghost predicate SoundPlan(plan: ScanPlan, wanted: seq<int>, step: int) {
    && StrictlyAscending(plan.frames)
    && (forall f :: f in plan.frames ==> plan.start <= f <= plan.end)
    && (Nonempty(plan) ==>
         && (forall v :: v in wanted ==> Clamp(v, plan.start, plan.end) in plan.frames)
         && GapsAtMost(plan.frames, step))
  }

  /**
   * The scan plan is strictly increasing and stays in the scanned range, which lies in the video. When the range is not
   * empty the plan holds every clamped required frame, residual frame and window endpoint and never leaves a gap above
   * the sampling step. It always stays within the sample budget.
   */
  lemma ScanPlanIsSound(startFrame: int, endFrame: int, residualFrames: seq<int>, frameCount: int,
                        requiredFrames: seq<int>, margin: int, maxSamples: int)
    requires frameCount >= 1 && maxSamples >= 2
    ensures
      var r := BuildBoundaryScanFrames(startFrame, endFrame, residualFrames, frameCount, requiredFrames, margin, maxSamples);
      && r.Ok?
      && var plan := r.value;
      && 0 <= plan.start && plan.end < frameCount
      && SoundPlan(plan,
           Wanted(startFrame, endFrame, ClampAll(residualFrames, 0, frameCount - 1), requiredFrames, plan.start, plan.end),
           SampleStep(Max(0, plan.end - plan.start + 1), maxSamples))
      && |plan.frames| <= maxSamples + |requiredFrames| + |residualFrames| + 3
  {
    var plan := BuildBoundaryScanFrames(startFrame, endFrame, residualFrames, frameCount, requiredFrames, margin, maxSamples).value;
    var observed := ClampAll(residualFrames, 0, frameCount - 1);
    var full := Range(plan.start, plan.end);
    var wanted := Wanted(startFrame, endFrame, observed, requiredFrames, plan.start, plan.end);
    if |full| <= maxSamples {
      FullPlan(plan, wanted);
    } else {
      var step := SampleStep(|full|, maxSamples);
      EveryNthOfRange(plan.start, plan.end, step);
      assert wanted[|requiredFrames + observed|] == plan.start;
      SubsampledPlan(plan, wanted, ClampAll(wanted, plan.start, plan.end), step, maxSamples);
    }
  }

  lemma SubsampledPlan(plan: ScanPlan, wanted: seq<int>, required: seq<int>, step: nat, maxSamples: nat)
    requires maxSamples >= 2 && plan.end - plan.start + 1 > maxSamples && plan.start in wanted
    requires required == ClampAll(wanted, plan.start, plan.end)
    requires step == SampleStep(plan.end - plan.start + 1, maxSamples)
    requires plan.frames == SortedDistinct(Samples(plan.start, plan.end, step) + required)
    ensures SoundPlan(plan, wanted, step)
    ensures |plan.frames| <= maxSamples + |wanted| - 1
  {
    hide *;
    ClampedMembers(wanted, plan.start, plan.end);
    ClampInside(plan.start, plan.start, plan.end);
    assert plan.start in required;
    SubsampledLength(required, plan.start, plan.end, maxSamples);
    SampledPlanIsSound(plan, wanted, required, step);
  }

  lemma SampledPlanIsSound(plan: ScanPlan, wanted: seq<int>, required: seq<int>, step: nat)
    requires step >= 1 && plan.start <= plan.end
    requires plan.frames == SortedDistinct(Samples(plan.start, plan.end, step) + required)
    requires forall v :: v in wanted ==> Clamp(v, plan.start, plan.end) in required
    requires forall f :: f in required ==> plan.start <= f <= plan.end
    ensures SoundPlan(plan, wanted, step)
  {
    SampledPlan(required, plan.start, plan.end, step);
  }

  lemma SubsampledLength(required: seq<int>, start: int, end: int, maxSamples: nat)
    requires maxSamples >= 2 && end - start + 1 > maxSamples && start in required
    ensures |SortedDistinct(Samples(start, end, SampleStep(end - start + 1, maxSamples)) + required)|
         <= maxSamples + |required| - 1
  {
    var samples := Samples(start, end, SampleStep(end - start + 1, maxSamples));
    SamplesCover(start, end, SampleStep(end - start + 1, maxSamples));
    SampleBudget(start, end, maxSamples);
    PlanLength(samples, required, start);
  }

  lemma FullPlan(plan: ScanPlan, wanted: seq<int>)
    requires plan.frames == Range(plan.start, plan.end)
    ensures SoundPlan(plan, wanted, 1)
  {
    forall v | v in wanted && Nonempty(plan)
      ensures Clamp(v, plan.start, plan.end) in plan.frames
    {
      assert plan.frames[Clamp(v, plan.start, plan.end) - plan.start] == Clamp(v, plan.start, plan.end);
    }
  }

  lemma ClampInside(v: int, lo: int, hi: int)
    requires lo <= v <= hi
    ensures Clamp(v, lo, hi) == v
  {
  }

  lemma {:induction false} ClampedMembers(wanted: seq<int>, start: int, end: int)
    requires start <= end
    ensures var required := ClampAll(wanted, start, end);
      && (forall v :: v in wanted ==> Clamp(v, start, end) in required)
      && (forall f :: f in required ==> start <= f <= end)
  {
    if wanted != [] {
      ClampedMembers(wanted[1..], start, end);
      assert wanted == [wanted[0]] + wanted[1..];
    }
  }

  /** The scanned range is empty exactly when the padded evidence misses the video or runs backwards. */
  lemma WhenPlanIsNonempty(startFrame: int, endFrame: int, residualFrames: seq<int>, frameCount: int,
                           requiredFrames: seq<int>, margin: int, maxSamples: int)
    requires frameCount >= 1 && maxSamples >= 2
    ensures
      var plan := BuildBoundaryScanFrames(startFrame, endFrame, residualFrames, frameCount, requiredFrames, margin, maxSamples).value;
      var pad := Max(0, margin);
      Nonempty(plan) <==>
        || residualFrames != []
        || (startFrame - pad < frameCount && 0 <= endFrame + pad && startFrame - pad <= endFrame + pad)
  {
    var observed := ClampAll(residualFrames, 0, frameCount - 1);
    if residualFrames != [] {
      ClampedMembers(residualFrames, 0, frameCount - 1);
      assert observed[0] in observed;
    }
  }

  // ----- Hit runs -----

  datatype RunError = AnchorNotConfirmed | AmbiguousWindow

  /** Two successive hits belong together when at most `gap` frames lie between them. */
  predicate Linked(f: int, g: int, gap: int) { g - f - 1 <= gap }

  function Last(s: seq<int>): int
    requires s != []
  {
    s[|s| - 1]
  }

  /** `run` is a stretch of linked hits that no other hit is linked to. */
  ghost predicate IsolatedRun(hits: seq<int>, run: seq<int>, gap: int) {
    && run != [] && StrictlyAscending(run)
    && (forall f :: f in run ==> f in hits)
    && (forall f :: f in hits && run[0] <= f <= Last(run) ==> f in run)
    && (forall i :: 0 <= i < |run| - 1 ==> Linked(run[i], run[i + 1], gap))
    && (forall f :: f in hits && f < run[0] ==> !Linked(f, run[0], gap))
    && (forall f :: f in hits && Last(run) < f ==> !Linked(Last(run), f, gap))
  }

  /** The greedy grouping: each hit joins the last run when it is linked to its end, and opens a run otherwise. */
  function Runs(ordered: seq<int>, gap: int): (runs: seq<seq<int>>)
    requires ordered != []
    ensures runs != [] && runs[|runs| - 1] != [] && Last(runs[|runs| - 1]) == Last(ordered)
  {
    if |ordered| == 1 then [ordered]
    else
      var earlier := Runs(ordered[..|ordered| - 1], gap);
      var n, f := |earlier| - 1, Last(ordered);
      if Linked(Last(earlier[n]), f, gap) then earlier[..n] + [earlier[n] + [f]] else earlier + [[f]]
  }

  lemma {:induction false} RunsAreIsolated(ordered: seq<int>, gap: int, k: nat)
    requires ordered != [] && StrictlyAscending(ordered) && k < |Runs(ordered, gap)|
    ensures IsolatedRun(ordered, Runs(ordered, gap)[k], gap)
  {
    if |ordered| > 1 {
      var front, f := ordered[..|ordered| - 1], Last(ordered);
      var earlier := Runs(front, gap);
      assert ordered == front + [f];
      hide IsolatedRun, StrictlyAscending;
      assert StrictlyAscending(front) && (forall g :: g in front ==> g < f) by { DropLast(ordered); }
      if k < |earlier| {
        RunsAreIsolated(front, gap, k);
        RunsStepIsolated(front, f, earlier, gap, k);
      } else {
        NewRun(front, f, earlier[k - 1], gap);
      }
    } else {
      assert ordered == [ordered[0]];
      SingleRun(ordered[0], gap);
    }
  }

  lemma DropLast(ordered: seq<int>)
    requires ordered != [] && StrictlyAscending(ordered)
    ensures var front := ordered[..|ordered| - 1];
      StrictlyAscending(front) && forall g :: g in front ==> g < Last(ordered)
  {
  }

  lemma SingleRun(f: int, gap: int)
    ensures IsolatedRun([f], [f], gap)
  {
  }

  lemma NewRun(front: seq<int>, f: int, run: seq<int>, gap: int)
    requires front != [] && StrictlyAscending(front) && run != [] && Last(run) == Last(front)
    requires forall g :: g in front ==> g < f
    requires !Linked(Last(run), f, gap)
    ensures IsolatedRun(front + [f], [f], gap)
  {
  }

  lemma RunsStepIsolated(front: seq<int>, f: int, earlier: seq<seq<int>>, gap: int, k: nat)
    requires front != [] && StrictlyAscending(front) && earlier == Runs(front, gap) && k < |earlier|
    requires IsolatedRun(front, earlier[k], gap) && forall g :: g in front ==> g < f
    ensures k < |earlier| - 1 || !Linked(Last(earlier[k]), f, gap) ==> IsolatedRun(front + [f], earlier[k], gap)
    ensures k == |earlier| - 1 && Linked(Last(earlier[k]), f, gap) ==> IsolatedRun(front + [f], earlier[k] + [f], gap)
  {
    hide Runs;
    assert Last(front) in front;
    if k < |earlier| - 1 {
      RunsBefore(front, gap, k);
      KeepRun(front, f, earlier[k], gap);
    } else if Linked(Last(earlier[k]), f, gap) {
      ExtendRun(front, f, earlier[k], gap);
    } else {
      KeepRun(front, f, earlier[k], gap);
    }
  }

  /** Only the last run reaches the last hit. */
  lemma {:induction false} RunsBefore(ordered: seq<int>, gap: int, k: nat)
    requires ordered != [] && StrictlyAscending(ordered) && k < |Runs(ordered, gap)| - 1
    ensures Runs(ordered, gap)[k] != [] && Last(Runs(ordered, gap)[k]) < Last(ordered)
  {
    var front := ordered[..|ordered| - 1];
    var earlier := Runs(front, gap);
    if k < |earlier| - 1 {
      RunsBefore(front, gap, k);
    }
  }

  lemma KeepRun(front: seq<int>, f: int, run: seq<int>, gap: int)
    requires IsolatedRun(front, run, gap) && forall g :: g in front ==> g < f
    requires !Linked(Last(run), f, gap)
    ensures IsolatedRun(front + [f], run, gap)
  {
    assert Last(run) in run;
  }

  lemma ExtendRun(front: seq<int>, f: int, run: seq<int>, gap: int)
    requires IsolatedRun(front, run, gap) && forall g :: g in front ==> g <= Last(run) && g < f
    requires Linked(Last(run), f, gap)
    ensures IsolatedRun(front + [f], run + [f], gap)
  {
    hide Linked;
    var grown, hits := run + [f], front + [f];
    assert forall i :: 0 <= i < |run| ==> run[i] in run;
    assert StrictlyAscending(grown) && grown[0] == run[0] && Last(grown) == f;
    assert forall g :: g in hits <==> g in front || g == f;
    assert forall g :: g in grown <==> g in run || g == f;
    forall i | 0 <= i < |grown| - 1
      ensures Linked(grown[i], grown[i + 1], gap)
    {
      if i < |run| - 1 {
        assert grown[i] == run[i] && grown[i + 1] == run[i + 1];
      } else {
        assert grown[i] == Last(run) && grown[i + 1] == f;
      }
    }
  }

  lemma {:induction false} RunsCover(ordered: seq<int>, gap: int, x: int)
    requires ordered != [] && x in ordered
    ensures exists k :: 0 <= k < |Runs(ordered, gap)| && x in Runs(ordered, gap)[k]
  {
    var runs := Runs(ordered, gap);
    if x == Last(ordered) {
      assert x in runs[|runs| - 1];
    } else {
      var front := ordered[..|ordered| - 1];
      RunsCover(front, gap, x);
      var earlier := Runs(front, gap);
      var k :| 0 <= k < |earlier| && x in earlier[k];
      assert x in runs[k];
    }
  }

  method GroupRuns(ordered: seq<int>, maxInternalGap: int) returns (runs: seq<seq<int>>)
    requires ordered != []
    ensures runs == Runs(ordered, maxInternalGap)
  {
    runs := [[ordered[0]]];
    var n := 1;
    assert ordered[..1] == [ordered[0]];
    while n < |ordered|
      invariant 1 <= n <= |ordered|
      invariant runs == Runs(ordered[..n], maxInternalGap)
    {
      var last := |runs| - 1;
      assert ordered[..n + 1][..n] == ordered[..n];
      if ordered[n] - Last(runs[last]) - 1 <= maxInternalGap {
        runs := runs[..last] + [runs[last] + [ordered[n]]];
      } else {
        runs := runs + [[ordered[n]]];
      }
      n := n + 1;
    }
    assert ordered[..n] == ordered;
  }

  /** The run around the anchor, or the error when the anchor is not a hit; the window is never ambiguous. */
  method InferContiguousHitWindow(hitFrames: seq<int>, anchor: int, maxInternalGap: int)
    returns (r: Result<seq<int>, RunError>)
    ensures r.Ok? <==> anchor in hitFrames
    ensures r.Err? ==> r.error == AnchorNotConfirmed
    ensures r.Ok? ==> IsolatedRun(SortedDistinct(hitFrames), r.value, maxInternalGap) && anchor in r.value
  {
    var ordered := SortedDistinct(hitFrames);
    SortedDistinctIs(hitFrames);
    if ordered == [] || anchor !in ordered {
      return Err(AnchorNotConfirmed);
    }
    var runs := GroupRuns(ordered, maxInternalGap);
    var i := 0;
    while i < |runs|
      invariant 0 <= i <= |runs|
      invariant forall k :: 0 <= k < i ==> anchor !in runs[k]
    {
      RunsAreIsolated(ordered, maxInternalGap, i);
      RunBounds(ordered, runs[i], maxInternalGap);
      if runs[i][0] <= anchor <= Last(runs[i]) {
        return Ok(runs[i]);
      }
      i := i + 1;
    }
    RunsCover(ordered, maxInternalGap, anchor);
    assert false;
    r := Err(AmbiguousWindow);
  }

  lemma RunBounds(hits: seq<int>, run: seq<int>, gap: int)
    requires IsolatedRun(hits, run, gap)
    ensures forall f :: f in run ==> run[0] <= f <= Last(run)
    ensures run[0] in run && Last(run) in run
  {
  }

  lemma BetweenEnds(s: seq<int>, f: int)
    requires StrictlyAscending(s) && f in s
    ensures s[0] <= f <= Last(s)
  {
  }

  /** Every hit of a run but the first is linked to an earlier hit, every one but the last to a later one. */
  lemma RunNeighbours(hits: seq<int>, run: seq<int>, gap: int, f: int)
    requires IsolatedRun(hits, run, gap) && f in run
    ensures f == run[0] || exists g :: g in hits && g < f && Linked(g, f, gap)
    ensures f == Last(run) || exists g :: g in hits && f < g && Linked(f, g, gap)
  {
    var i :| 0 <= i < |run| && run[i] == f;
    if i > 0 {
      assert run[i - 1] in hits && Linked(run[i - 1], run[i], gap);
    }
    if i < |run| - 1 {
      assert run[i + 1] in hits && Linked(run[i], run[i + 1], gap);
    }
  }

  lemma WithinEnds(hits: seq<int>, a: seq<int>, b: seq<int>, gap: int, anchor: int)
    requires IsolatedRun(hits, a, gap) && IsolatedRun(hits, b, gap) && anchor in a && anchor in b
    ensures b[0] <= a[0] && Last(a) <= Last(b)
  {
    RunBounds(hits, a, gap);
    RunBounds(hits, b, gap);
    if a[0] < b[0] {
      RunNeighbours(hits, a, gap, b[0]);
    }
    if Last(b) < Last(a) {
      RunNeighbours(hits, a, gap, Last(b));
    }
  }

  lemma {:induction false} SameMembersSameList(a: seq<int>, b: seq<int>)
    requires StrictlyAscending(a) && StrictlyAscending(b) && forall f :: f in a <==> f in b
    ensures a == b
  {
    SameElements(a, b);
    DistinctCardinality(a);
    DistinctCardinality(b);
    if a != [] {
      assert a[0] in a && b[0] in b;
      assert a == [a[0]] + a[1..] && b == [b[0]] + b[1..];
      assert forall f :: f in a[1..] <==> f in a && f != a[0];
      assert forall f :: f in b[1..] <==> f in b && f != b[0];
      SameMembersSameList(a[1..], b[1..]);
    }
  }

  /** There is only one isolated run around an anchor. */
  lemma RunAroundAnchorIsUnique(hits: seq<int>, a: seq<int>, b: seq<int>, gap: int, anchor: int)
    requires IsolatedRun(hits, a, gap) && IsolatedRun(hits, b, gap) && anchor in a && anchor in b
    ensures a == b
  {
    WithinEnds(hits, a, b, gap, anchor);
    WithinEnds(hits, b, a, gap, anchor);
    RunBounds(hits, a, gap);
    RunBounds(hits, b, gap);
    SameMembersSameList(a, b);
  }

  /** With at most `gap` misses between neighbours, the hits of a run are at least one in gap + 1. */
  lemma {:induction false} RunDensity(frames: seq<int>, gap: nat)
    requires frames != [] && forall i :: 0 <= i < |frames| - 1 ==> Linked(frames[i], frames[i + 1], gap)
    ensures frames[|frames| - 1] - frames[0] + 1 <= (|frames| - 1) * (gap + 1) + 1
  {
    if |frames| > 1 {
      var front := frames[..|frames| - 1];
      RunDensity(front, gap);
      assert (|frames| - 1) * (gap + 1) == (|front| - 1) * (gap + 1) + (gap + 1);
    }
  }

  /** A run inferred from a scan of every frame hits more than half of its window. */
  lemma FullScanRunIsDense(hits: seq<int>, run: seq<int>)
    requires IsolatedRun(hits, run, 1)
    ensures 2 * |run| > Last(run) - run[0] + 1
  {
    RunDensity(run, 1);
  }

  /** The widest step between neighbouring samples, 1 when there are none. */
  function MaxSampleGap(frames: seq<int>): int {
    if |frames| < 2 then 1
    else if |frames| == 2 then frames[1] - frames[0]
    else Max(frames[1] - frames[0], MaxSampleGap(frames[1..]))
  }

  lemma {:induction false} MaxSampleGapBounds(frames: seq<int>, i: nat)
    requires i + 1 < |frames|
    ensures frames[i + 1] - frames[i] <= MaxSampleGap(frames)
  {
    if i > 0 {
      MaxSampleGapBounds(frames[1..], i - 1);
    }
  }

  /**
   * Two hits with no sampled miss between them land in the same run, because the gap handed to the inference is the
   * widest sample step minus one.
   */
  lemma NoMissNoSplit(samples: seq<int>, hits: seq<int>, run: seq<int>, h: int, h': int)
    requires StrictlyAscending(samples) && forall f :: f in hits ==> f in samples
    requires IsolatedRun(hits, run, Max(1, MaxSampleGap(samples) - 1))
    requires h in run && h' in hits
    requires forall f :: f in samples && (h <= f <= h' || h' <= f <= h) ==> f in hits
    ensures h' in run
  {
    var gap := Max(1, MaxSampleGap(samples) - 1);
    RunBounds(hits, run, gap);
    if h' > Last(run) {
      SampleNeighbours(samples, Last(run), h');
    }
    if h' < run[0] {
      SampleNeighbours(samples, h', run[0]);
    }
  }

  lemma SampleAt(samples: seq<int>, f: int) returns (i: nat)
    requires f in samples
    ensures i < |samples| && samples[i] == f
  {
    i :| 0 <= i < |samples| && samples[i] == f;
  }

  /** Between two samples, the next one after the first and the last one before the second are within the widest step. */
  lemma SampleNeighbours(samples: seq<int>, a: int, b: int)
    requires StrictlyAscending(samples) && a in samples && b in samples && a < b
    ensures exists f :: f in samples && a < f <= b && Linked(a, f, Max(1, MaxSampleGap(samples) - 1))
    ensures exists f :: f in samples && a <= f < b && Linked(f, b, Max(1, MaxSampleGap(samples) - 1))
  {
    hide MaxSampleGap;
    var j := SampleAt(samples, a);
    var k := SampleAt(samples, b);
    assert j < k;
    MaxSampleGapBounds(samples, j);
    MaxSampleGapBounds(samples, k - 1);
    var next, previous := samples[j + 1], samples[k - 1];
    assert next in samples && previous in samples;
  }
}
