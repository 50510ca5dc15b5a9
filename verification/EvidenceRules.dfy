/** When a raw row, a recognizer's box or a reviewed object counts, in characters, confidences and areas. */
module EvidenceRules {
  import opened Prelude
  import opened Text
  import opened Geometry
  import opened ResidualEvidence
  import opened Clustering
  import Normalization
  import SourceMatching
  import ReviewedResiduals

  // ----- Likeness of texts -----

  predicate IsAt(text: string, part: string, i: int) { 0 <= i <= |text| - |part| && text[i..i + |part|] == part }

  lemma AtOneLater(text: string, part: string, i: int)
    requires text != "" && i >= 0
    ensures IsAt(text[1..], part, i) <==> IsAt(text, part, i + 1)
  {
    if i <= |text| - 1 - |part| {
      assert text[1..][i..i + |part|] == text[i + 1..i + 1 + |part|];
    }
  }

  lemma AtFirst(text: string, part: string)
    ensures part <= text <==> IsAt(text, part, 0)
  {
    assert part <= text ==> text[0..0 + |part|] == part;
  }

  lemma {:induction false} ContainsAt(text: string, part: string)
    ensures Contains(text, part) <==> exists i :: IsAt(text, part, i)
  {
    AtFirst(text, part);
    AtIsInside(text, part);
    hide IsAt;
    if text != "" && !(part <= text) {
      ContainsAt(text[1..], part);
      AtIsInside(text[1..], part);
      if i :| IsAt(text, part, i) {
        AtOneLater(text, part, i - 1);
        assert IsAt(text[1..], part, i - 1);
      }
      if i :| IsAt(text[1..], part, i) {
        AtOneLater(text, part, i);
        assert IsAt(text, part, i + 1);
      }
    }
  }

  lemma AtIsInside(text: string, part: string)
    ensures forall i :: IsAt(text, part, i) ==> 0 <= i <= |text| - |part|
  {
  }

  /** Alike by 0.72; by 0.62 for texts of four characters or more of which one occurs in the other. */
  ghost predicate Alike(a: string, b: string, ratio: real) {
    || ratio >= 0.72
    || (ratio >= 0.62 && |a| >= 4 && |b| >= 4 && ((exists i :: IsAt(a, b, i)) || exists i :: IsAt(b, a, i)))
  }

  lemma WhenTextsAreSame(similarity: ReviewedResiduals.Similarity, a: string, b: string)
    ensures ReviewedResiduals.SameText(similarity, a, b) <==> Alike(a, b, similarity.ratio(a, b))
  {
    ContainsAt(a, b);
    ContainsAt(b, a);
    hide Contains, IsAt;
  }

  /** Rows of one temporal object read alike: neither signature is empty, and they are equal or alike. */
  lemma WhenRowsReadAlike(rules: Normalization.Rules, a: string, b: string)
    ensures var x, y := rules.signature(a), rules.signature(b);
      Normalization.SimilarText(rules, a, b) <==> x != "" && y != "" && (x == y || Alike(x, y, rules.ratio(x, y)))
  {
    ContainsAt(rules.signature(a), rules.signature(b));
    ContainsAt(rules.signature(b), rules.signature(a));
    hide Contains, IsAt;
  }

  // ----- Places -----

  /** A usable box that shares so much of the smaller of the two areas. */
  ghost predicate Over(anchor: Rect, box: Box, shared: real) {
    ValidBox(box) && Intersection(anchor, Corners(box)) >= shared * MinReal(Area(anchor), Area(Corners(box)))
  }

  lemma WhenItIsOver(anchor: Rect, box: Box, shared: real)
    requires Area(anchor) > 0.0
    ensures Over(anchor, box, shared) <==> RectOf(box).Ok? && Overlap(anchor, Corners(box)) >= shared
  {
    if ValidBox(box) {
      var r := Corners(box);
      assert Extent(r.left, r.right) == box.width && Extent(r.top, r.bottom) == box.height;
      assert Area(r) == box.width * box.height > 0.0;
      QuotientOrder(Intersection(anchor, r), shared, MinReal(Area(anchor), Area(r)));
    }
    hide Area, Intersection;
  }

  // ----- Rows of a residual scan -----

  /** A text is reviewed when its signature is not empty and holds an ideograph. */
  predicate IsReadable(script: Script, text: string) {
    script.signature(Strip(text)) != "" && script.containsCjk(script.signature(Strip(text)))
  }

  lemma WhenRowIsReviewable(script: Script, d: Detection)
    ensures Reviewable(script, d) <==> IsReadable(script, d.text)
  {
    hide Strip;
  }

  /** The range an object is reviewed over: stored frames, else the one shown; null is 0, and an end of 0 or null is the start. */
  ghost predicate ReviewedOver(review: Normalization.Reviewed, first: int, last: int) {
    var shown := if review.frameIndex.Value? then review.frameIndex.frame else 0;
    && first == (match review.startFrame case Missing => shown case Null => 0 case Value(f) => f)
    && var end := match review.endFrame case Missing => (if review.frameIndex.Missing? then first else shown) case Null => 0 case Value(f) => f;
    last == if end == 0 then first else end
  }

  /** A raw row is evidence for an object exactly when it is in its range, over its place by 0.55, and reads the same or alike. */
  lemma WhenRowIsEvidence(script: Script, similarity: ReviewedResiduals.Similarity, review: Normalization.Reviewed, anchor: Rect, d: Detection,
                          first: int, last: int)
    requires Area(anchor) > 0.0 && ReviewedOver(review, first, last)
    ensures var x, y := script.signature(Strip(review.text)), script.signature(Strip(d.text));
      ReviewedResiduals.IsEvidence(script, similarity, review, anchor, d) <==>
        && first <= d.frame <= last && ReadBox(d.geometry).Some? && Over(anchor, ReadBox(d.geometry).value, 0.55)
        && Alike(x, y, similarity.ratio(x, y))
  {
    var x, y := script.signature(Strip(review.text)), script.signature(Strip(d.text));
    WhenTextsAreSame(similarity, x, y);
    assert ReviewedResiduals.StartOf(review) == first && ReviewedResiduals.EndOf(review) == last;
    hide Strip, Overlap, Area, ReviewedResiduals.SameText, ReviewedResiduals.StartOf, ReviewedResiduals.EndOf, Over, Alike;
    if ReadBox(d.geometry).Some? {
      WhenItIsOver(anchor, ReadBox(d.geometry).value, 0.55);
    }
  }

  /** An object is bound exactly when it has an id, a readable text and a usable place. */
  lemma WhenObjectIsBound(script: Script, review: Normalization.Reviewed)
    ensures ReviewedResiduals.Bindable(script, review) <==>
      && Strip(review.contentId) != "" && IsReadable(script, review.text)
      && ReadBox(review.geometry).Some? && ValidBox(ReadBox(review.geometry).value)
  {
    hide Strip;
  }

  // ----- Boxes of a source frame -----

  /** A box is exact when it is of the signature looked for, with an ideograph, over the place by half, and a quarter certain. */
  lemma WhenBoxIsExact(script: Script, target: SourceMatching.Target, b: SourceMatching.OcrBox)
    requires Area(target.anchor) > 0.0
    ensures SourceMatching.Exact(script, target, b) <==>
      && script.signature(Strip(b.text)) == target.signature && script.containsCjk(Strip(b.text))
      && Over(target.anchor, b.box, 0.50) && 4.0 * b.confidence >= 1.0
  {
    WhenItIsOver(target.anchor, b.box, 0.50);
    hide Strip, Overlap, Area, Over;
  }

  /** A box is similar when what was read before the correction has a signature, and it is alike by 0.75, over the place, and half certain. */
  lemma WhenBoxIsSimilar(script: Script, ratio: (string, string) -> real, target: SourceMatching.Target, b: SourceMatching.OcrBox)
    requires Area(target.anchor) > 0.0
    ensures var x, y := script.signature(target.encodedText), script.signature(Strip(b.text));
      SourceMatching.Similar(script, ratio, target, b) <==>
        && x != "" && script.containsCjk(y) && 4.0 * ratio(x, y) >= 3.0
        && Over(target.anchor, b.box, 0.50) && 2.0 * b.confidence >= 1.0
  {
    WhenItIsOver(target.anchor, b.box, 0.50);
    hide Strip, Overlap, Area, Over;
  }

  /** Without a correction the cluster itself is looked for; with one its text, and what was read; a correction without ideographs is an error. */
  lemma WhatIsLookedFor(script: Script, cluster: Cluster, correction: string)
    requires cluster.detections != []
    ensures var r := SourceMatching.TargetOf(script, cluster, correction);
      && (Strip(correction) == "" ==> r == Ok(SourceMatching.Target(cluster.signature, cluster.anchor, "")))
      && (Strip(correction) != "" && IsReadable(script, Strip(correction)) ==>
            r == Ok(SourceMatching.Target(script.signature(Strip(correction)), cluster.anchor, Strip(Representative(cluster).text))))
      && (r.Err? <==> Strip(correction) != "" && !IsReadable(script, Strip(correction)))
  {
    StripIsIdempotent(correction);
    hide Strip, Representative;
  }
}
