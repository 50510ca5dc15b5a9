/** Exactly which frames a boundary scan looks at. */
module ScanRules {
  import opened Prelude
  import opened FrameScan

  /** The smallest step that keeps within the sample budget. */
  predicate IsStep(step: int, scanned: int, maxSamples: int) {
    step >= 1 && step * maxSamples >= scanned && (step == 1 || (step - 1) * maxSamples < scanned)
  }

  lemma StepIs(scanned: nat, maxSamples: nat)
    requires maxSamples >= 2
    ensures IsStep(SampleStep(scanned, maxSamples), scanned, maxSamples)
  {
    if scanned > maxSamples {
      CeilDivBounds(scanned, maxSamples);
      DivParts(scanned + maxSamples - 1, maxSamples);
    }
  }

  lemma DivParts(n: nat, d: nat)
    requires d > 0
    ensures (n / d - 1) * d <= n - d
  {
  }

  lemma Monotone(a: int, b: int, k: int)
    requires a <= b && k >= 0
    ensures a * k <= b * k
  {
  }

  lemma OneStep(a: int, b: int, scanned: int, maxSamples: int)
    requires maxSamples >= 1 && IsStep(a, scanned, maxSamples) && IsStep(b, scanned, maxSamples)
    ensures a == b
  {
    if a < b {
      Monotone(a, b - 1, maxSamples);
    } else if b < a {
      Monotone(b, a - 1, maxSamples);
    }
  }

  lemma {:induction false} SamplesAre(lo: int, hi: int, step: nat, f: int)
    requires step >= 1
    ensures f in Samples(lo, hi, step) <==> lo <= f <= hi && (f - lo) % step == 0
    decreases hi - lo
  {
    if lo <= hi {
      SamplesAre(lo + step, hi, step, f);
      Shifted(f - lo, step);
      if lo < f < lo + step {
        assert (f - lo) % step == f - lo;
      }
    }
  }

  lemma Shifted(n: int, step: nat)
    requires step >= 1
    ensures (n - step) % step == n % step
  {
    var q, r := n / step, n % step;
    assert n - step == (q - 1) * step + r;
    SameRemainder(n - step, step, q - 1, r);
  }

  lemma SameRemainder(n: int, step: nat, q: int, r: int)
    requires step >= 1 && n == q * step + r && 0 <= r < step
    ensures n % step == r
  {
    var d := n / step - q;
    assert d * step == r - n % step;
    if d >= 1 {
      Monotone(1, d, step);
    } else if d <= -1 {
      Monotone(d, -1, step);
    }
  }

  /** A residual frame, cut to the video. */
  ghost predicate Observed(residualFrames: seq<int>, frameCount: int, v: int) {
    exists r :: r in residualFrames && v == Max(0, Min(frameCount - 1, r))
  }

  /** The frame stands for one that was asked for: required, an end of the window, or a residual frame, each cut to the range. */
  ghost predicate Asked(startFrame: int, endFrame: int, residualFrames: seq<int>, frameCount: int, requiredFrames: seq<int>, lo: int, hi: int,
                        f: int)
  {
    || (exists v :: v in requiredFrames && f == Max(lo, Min(hi, v)))
    || (exists v :: Observed(residualFrames, frameCount, v) && f == Max(lo, Min(hi, v)))
    || f == Max(lo, Min(hi, startFrame)) || f == Max(lo, Min(hi, endFrame)) || f == lo || f == hi
  }

  lemma {:induction false} ClampedAre(values: seq<int>, lo: int, hi: int, f: int)
    ensures f in ClampAll(values, lo, hi) <==> exists v :: v in values && f == Max(lo, Min(hi, v))
  {
    if values != [] {
      ClampedAre(values[1..], lo, hi, f);
      assert forall v :: v in values <==> v == values[0] || v in values[1..] by {
        assert values == [values[0]] + values[1..];
      }
    }
  }

  lemma WantedIsAsked(startFrame: int, endFrame: int, residualFrames: seq<int>, frameCount: int, requiredFrames: seq<int>, lo: int, hi: int, f: int)
    requires lo <= hi
    ensures f in ClampAll(Wanted(startFrame, endFrame, ClampAll(residualFrames, 0, frameCount - 1), requiredFrames, lo, hi), lo, hi) <==>
      Asked(startFrame, endFrame, residualFrames, frameCount, requiredFrames, lo, hi, f)
  {
    var observed := ClampAll(residualFrames, 0, frameCount - 1);
    var wanted := Wanted(startFrame, endFrame, observed, requiredFrames, lo, hi);
    ClampedAre(wanted, lo, hi, f);
    WantedAre(startFrame, endFrame, observed, requiredFrames, lo, hi);
    ObservedAre(residualFrames, frameCount);
    hide ClampAll, Wanted, Observed;
    assert f == lo ==> f == Max(lo, Min(hi, lo));
    assert f == hi ==> f == Max(lo, Min(hi, hi));
  }

  lemma WantedAre(startFrame: int, endFrame: int, observed: seq<int>, requiredFrames: seq<int>, lo: int, hi: int)
    ensures forall v :: v in Wanted(startFrame, endFrame, observed, requiredFrames, lo, hi) <==>
      v in requiredFrames || v in observed || v == lo || v == startFrame || v == endFrame || v == hi
  {
  }

  lemma ObservedAre(residualFrames: seq<int>, frameCount: int)
    ensures forall v :: v in ClampAll(residualFrames, 0, frameCount - 1) <==> Observed(residualFrames, frameCount, v)
  {
    forall v
      ensures v in ClampAll(residualFrames, 0, frameCount - 1) <==> Observed(residualFrames, frameCount, v)
    {
      ClampedAre(residualFrames, 0, frameCount - 1, v);
    }
  }

  /** The least or greatest of the window's end and the residual frames, these cut to the video. */
  ghost predicate Reaches(end: int, residualFrames: seq<int>, frameCount: int, v: int) {
    v == end || Observed(residualFrames, frameCount, v)
  }

  lemma RangeIs(startFrame: int, endFrame: int, residualFrames: seq<int>, frameCount: int, margin: int)
    ensures var observed, m := ClampAll(residualFrames, 0, frameCount - 1), Max(0, margin);
      && (exists v :: Reaches(startFrame, residualFrames, frameCount, v) && ScanStart(startFrame, observed, margin) == Max(0, v - m))
      && (forall v :: Reaches(startFrame, residualFrames, frameCount, v) ==> ScanStart(startFrame, observed, margin) <= Max(0, v - m))
      && (exists v ::
            Reaches(endFrame, residualFrames, frameCount, v) && ScanEnd(endFrame, observed, margin, frameCount) == Min(frameCount - 1, v + m))
      && (forall v ::
            Reaches(endFrame, residualFrames, frameCount, v) ==> ScanEnd(endFrame, observed, margin, frameCount) >= Min(frameCount - 1, v + m))
  {
    var observed := ClampAll(residualFrames, 0, frameCount - 1);
    ObservedAre(residualFrames, frameCount);
    hide ClampAll, Least, Greatest, Observed;
    assert Reaches(startFrame, residualFrames, frameCount, Least(startFrame, observed));
    assert Reaches(endFrame, residualFrames, frameCount, Greatest(endFrame, observed));
  }

  /** The plan has the frame exactly when it is a step away from the start, or asked for. */
  predicate Takes(plan: ScanPlan, step: int, f: int, asked: bool)
    requires step >= 1
  {
    f in plan.frames <==> plan.start <= f <= plan.end && ((f - plan.start) % step == 0 || asked)
  }

  /**
   * The scanned range goes from the first to the last of the window and the residual frames, with the margin, cut to the video. The
   * plan holds every frame of it when these fit the budget, and otherwise exactly every `step`-th one and those asked for.
   */
  lemma WhichFramesAreScanned(startFrame: int, endFrame: int, residualFrames: seq<int>, frameCount: int, requiredFrames: seq<int>,
                              margin: int, maxSamples: int, f: int)
    requires frameCount >= 1 && maxSamples >= 2
    ensures var r := BuildBoundaryScanFrames(startFrame, endFrame, residualFrames, frameCount, requiredFrames, margin, maxSamples);
      && r.Ok?
      && var plan := r.value;
      var asked := Asked(startFrame, endFrame, residualFrames, frameCount, requiredFrames, plan.start, plan.end, f);
      exists step :: IsStep(step, plan.end - plan.start + 1, maxSamples) && Takes(plan, step, f, asked)
  {
    var plan := BuildBoundaryScanFrames(startFrame, endFrame, residualFrames, frameCount, requiredFrames, margin, maxSamples).value;
    ghost var asked := Asked(startFrame, endFrame, residualFrames, frameCount, requiredFrames, plan.start, plan.end, f);
    var lo, hi, scanned := plan.start, plan.end, plan.end - plan.start + 1;
    var observed := ClampAll(residualFrames, 0, frameCount - 1);
    if scanned <= maxSamples {
      EveryFrame(plan, f);
      assert IsStep(1, scanned, maxSamples);
      assert Takes(plan, 1, f, asked);
    } else {
      var step := SampleStep(scanned, maxSamples);
      StepIs(scanned, maxSamples);
      var wanted := Wanted(startFrame, endFrame, observed, requiredFrames, lo, hi);
      EveryNthOfRange(lo, hi, step);
      assert plan.frames == SortedDistinct(Samples(lo, hi, step) + ClampAll(wanted, lo, hi));
      MembersOfPlan(lo, hi, step, wanted, f);
      WantedIsAsked(startFrame, endFrame, residualFrames, frameCount, requiredFrames, lo, hi, f);
      assert Takes(plan, step, f, asked);
    }
  }

  lemma MembersOfPlan(lo: int, hi: int, step: nat, wanted: seq<int>, f: int)
    requires step >= 1 && lo <= hi
    ensures f in SortedDistinct(Samples(lo, hi, step) + ClampAll(wanted, lo, hi)) <==>
      lo <= f <= hi && ((f - lo) % step == 0 || f in ClampAll(wanted, lo, hi))
  {
    SamplesAre(lo, hi, step, f);
    ClampedMembers(wanted, lo, hi);
    SortedDistinctIs(Samples(lo, hi, step) + ClampAll(wanted, lo, hi));
    hide *;
  }

  lemma EveryFrame(plan: ScanPlan, f: int)
    requires plan.frames == Range(plan.start, plan.end)
    ensures f in plan.frames <==> plan.start <= f <= plan.end
    ensures (f - plan.start) % 1 == 0
  {
    if plan.start <= f <= plan.end {
      assert plan.frames[f - plan.start] == f;
    }
  }
}
