/** Reducing the raw OCR rows of a residual scan to the temporal objects an operator reviews. */
module Normalization {
  import opened Prelude
  import opened Text
  import opened Sorting
  import opened Geometry
  import opened Median
  import opened ResidualEvidence
  import opened Clustering

  /** A stored frame number: the key is missing, holds null, or holds a number. */
  datatype Field = Missing | Null | Value(frame: int)

  datatype Reviewed = Reviewed(contentId: string, text: string, geometry: RawGeometry, startFrame: Field, endFrame: Field, frameIndex: Field)

  /** The foreign parts: text signature and similarity, the consensus text of some rows, and the digest naming an object. */
  datatype Rules = Rules(signature: string -> string, ratio: (string, string) -> real, consensus: seq<Detection> -> string,
                         identity: (string, int, int, Box) -> string)

  /** A track whose pixels belong to the source; residuals on it are not reviewed. */
  datatype Protected = Protected(start: int, end: int, rect: Rect)

  /** Rows of one text at one place, with no long pause between two of them. */
  datatype Temporal = Temporal(start: int, end: int, anchor: Option<Rect>, text: string, rows: seq<Detection>)

  const RECENT := 12

  const NO_BOX := Box(0.0, 0.0, 0.0, 0.0)

  /** Unlike the rectangles of the remediation step these may leave the frame. */
  function LooseRect(b: Box): Option<Rect> {
    if b.width > 0.0 && b.height > 0.0 then Some(Corners(b)) else None
  }

  function RowRect(d: Detection): Option<Rect> {
    match ReadBox(d.geometry)
    case None => None
    case Some(b) => LooseRect(b)
  }

  function BoxesOfRows(rows: seq<Detection>): seq<Box> {
    if rows == [] then []
    else
      var last := rows[|rows| - 1];
      BoxesOfRows(rows[..|rows| - 1]) + (if RowRect(last).Some? then [ReadBox(last.geometry).value] else [])
  }

  function MedianGeometry(rows: seq<Detection>): Box {
    if BoxesOfRows(rows) == [] then NO_BOX else MedianBox(BoxesOfRows(rows))
  }

  function TextSimilarity(rules: Rules, a: string, b: string): real {
    var left, right := rules.signature(a), rules.signature(b);
    if left == "" || right == "" then 0.0 else if left == right then 1.0 else rules.ratio(left, right)
  }

  predicate SimilarText(rules: Rules, a: string, b: string) {
    var similarity := TextSimilarity(rules, a, b);
    var left, right := rules.signature(a), rules.signature(b);
    || similarity >= 0.72
    || (Min(|left|, |right|) >= 4 && (Contains(right, left) || Contains(left, right)) && similarity >= 0.62)
  }

  predicate Joins(rules: Rules, maxGap: int, t: Temporal, d: Detection) {
    && d.frame - t.end <= maxGap
    && RowRect(d).Some? && t.anchor.Some?
    && Overlap(RowRect(d).value, t.anchor.value) >= 0.55
    && SimilarText(rules, t.text, d.text)
  }

  predicate Usable(rules: Rules, d: Detection) { rules.signature(Strip(d.text)) != "" && RowRect(d).Some? }

  /** The latest of the recent temporals the row joins. */
  function LatestJoin(rules: Rules, maxGap: int, temporals: seq<Temporal>, d: Detection, oldest: int): (r: Option<nat>)
    ensures r.Some? ==> oldest <= r.value < |temporals| && Joins(rules, maxGap, temporals[r.value], d)
    ensures forall k :: (if r.Some? then r.value + 1 else Max(0, oldest)) <= k < |temporals| ==> !Joins(rules, maxGap, temporals[k], d)
  {
    var n := |temporals|;
    if n == 0 || n <= oldest then None
    else if Joins(rules, maxGap, temporals[n - 1], d) then Some(n - 1)
    else LatestJoin(rules, maxGap, temporals[..n - 1], d, oldest)
  }

  function Opened(d: Detection): Temporal { Temporal(d.frame, d.frame, RowRect(d), Strip(d.text), [d]) }

  function Extended(rules: Rules, t: Temporal, d: Detection): Temporal {
    var rows := t.rows + [d];
    Temporal(t.start, d.frame, LooseRect(MedianGeometry(rows)), rules.consensus(rows), rows)
  }

  function Placed(rules: Rules, maxGap: int, temporals: seq<Temporal>, d: Detection): seq<Temporal> {
    match LatestJoin(rules, maxGap, temporals, d, |temporals| - RECENT)
    case None => temporals + [Opened(d)]
    case Some(i) => temporals[i := Extended(rules, temporals[i], d)]
  }

  function Temporals(rules: Rules, maxGap: int, ordered: seq<Detection>): seq<Temporal> {
    if ordered == [] then []
    else
      var earlier := Temporals(rules, maxGap, ordered[..|ordered| - 1]);
      var d := ordered[|ordered| - 1];
      if Usable(rules, d) then Placed(rules, maxGap, earlier, d) else earlier
  }

  /** A lone row of low confidence that no neighbouring frame confirms. */
  predicate Noise(t: Temporal) {
    |t.rows| == 1 && !t.rows[0].confirmation.onAdjacentFrame && t.rows[0].confidence < 0.50
  }

  function Showing(rows: seq<Detection>, text: string): (r: seq<Detection>)
    ensures forall d :: d in r ==> d in rows
  {
    if rows == [] then []
    else
      var last := rows[|rows| - 1];
      Showing(rows[..|rows| - 1], text) + (if Strip(last.text) == text then [last] else [])
  }

  /** The most confident row that shows the text, or the most confident of all. */
  function RepresentativeRow(rows: seq<Detection>, text: string): Detection
    requires rows != []
  {
    var shown := if Showing(rows, text) != [] then Showing(rows, text) else rows;
    shown[MostConfident(shown)]
  }

  function Stored(b: Box): RawGeometry { RawGeometry(Number(b.x), Number(b.y), Number(b.width), Number(b.height)) }

  function ObjectOf(rules: Rules, t: Temporal): Reviewed
    requires t.rows != []
  {
    var text, geometry := rules.consensus(t.rows), MedianGeometry(t.rows);
    Reviewed("residual_content_" + rules.identity(rules.signature(text), t.start, t.end, geometry), text, Stored(geometry),
             Value(t.start), Value(t.end), Value(OrDefault(Some(RepresentativeRow(t.rows, text).frame), t.start)))
  }

  /** Two frames of slack in time, and most of the smaller rectangle in space. */
  predicate Touches(t: Temporal, p: Protected) {
    && LooseRect(MedianGeometry(t.rows)).Some?
    && OrDefault(Some(t.end), t.start) + 2 >= p.start && OrDefault(Some(p.end), p.start) + 2 >= t.start
    && Overlap(LooseRect(MedianGeometry(t.rows)).value, p.rect) >= 0.70
  }

  predicate IsReviewed(t: Temporal, tracks: seq<Protected>) {
    !Noise(t) && forall k :: 0 <= k < |tracks| ==> !Touches(t, tracks[k])
  }

  function ObjectsOf(rules: Rules, temporals: seq<Temporal>, tracks: seq<Protected>): seq<Reviewed>
    requires forall i :: 0 <= i < |temporals| ==> temporals[i].rows != []
  {
    if temporals == [] then []
    else
      var last := temporals[|temporals| - 1];
      ObjectsOf(rules, temporals[..|temporals| - 1], tracks) + (if IsReviewed(last, tracks) then [ObjectOf(rules, last)] else [])
  }

  /** Without any geometry the rows themselves are listed, with no range. */
  function LegacyObjects(rules: Rules, ordered: seq<Detection>): seq<Reviewed> {
    if ordered == [] then []
    else
      var last := ordered[|ordered| - 1];
      LegacyObjects(rules, ordered[..|ordered| - 1])
      + (if rules.signature(last.text) == "" then []
         else [Reviewed("residual_" + Padded(|ordered|), last.text, last.geometry, Missing, Missing, Value(last.frame))])
  }

  predicate NoGeometry(ordered: seq<Detection>) {
    ordered != [] && forall i :: 0 <= i < |ordered| ==> RowRect(ordered[i]).None?
  }

  function Normalized(rules: Rules, detections: seq<Detection>, tracks: seq<Protected>, maxGap: int): seq<Reviewed> {
    var ordered := Sort(detections, ByFrame);
    if NoGeometry(ordered) then LegacyObjects(rules, ordered)
    else
      var temporals := Temporals(rules, Max(1, maxGap), ordered);
      RowsAreKept(rules, Max(1, maxGap), ordered);
      ObjectsOf(rules, temporals, tracks)
  }

  method NormalizeResidualDetections(rules: Rules, detections: seq<Detection>, tracks: seq<Protected>, maxGap: int)
    returns (objects: seq<Reviewed>)
    ensures objects == Normalized(rules, detections, tracks, maxGap)
  {
    hide IsReviewed, ObjectOf, NoGeometry, Sort;
    var ordered := Sort(detections, ByFrame);
    objects := [];
    var i := 0;
    if NoGeometry(ordered) {
      while i < |ordered|
        invariant 0 <= i <= |ordered|
        invariant objects == LegacyObjects(rules, ordered[..i])
      {
        var d := ordered[i];
        assert ordered[..i + 1][..i] == ordered[..i];
        if rules.signature(d.text) != "" {
          objects := objects + [Reviewed("residual_" + Padded(i + 1), d.text, d.geometry, Missing, Missing, Value(d.frame))];
        }
        i := i + 1;
      }
      assert ordered[..i] == ordered;
    } else {
      var temporals := GroupRows(rules, Max(1, maxGap), ordered);
      RowsAreKept(rules, Max(1, maxGap), ordered);
      while i < |temporals|
        invariant 0 <= i <= |temporals|
        invariant objects == ObjectsOf(rules, temporals[..i], tracks)
      {
        assert temporals[..i + 1][..i] == temporals[..i];
        if IsReviewed(temporals[i], tracks) {
          objects := objects + [ObjectOf(rules, temporals[i])];
        }
        i := i + 1;
      }
      assert temporals[..i] == temporals;
    }
  }

  method GroupRows(rules: Rules, maxGap: int, ordered: seq<Detection>) returns (temporals: seq<Temporal>)
    ensures temporals == Temporals(rules, maxGap, ordered)
  {
    hide Usable, Joins, Extended, Opened;
    temporals := [];
    var i := 0;
    while i < |ordered|
      invariant 0 <= i <= |ordered|
      invariant temporals == Temporals(rules, maxGap, ordered[..i])
    {
      var d := ordered[i];
      assert ordered[..i + 1][..i] == ordered[..i];
      if Usable(rules, d) {
        var latest := FindJoin(rules, maxGap, temporals, d);
        if latest.None? {
          temporals := temporals + [Opened(d)];
        } else {
          temporals := temporals[latest.value := Extended(rules, temporals[latest.value], d)];
        }
      }
      i := i + 1;
    }
    assert ordered[..i] == ordered;
  }

  /** Looks at the twelve latest temporals, newest first. */
  method FindJoin(rules: Rules, maxGap: int, temporals: seq<Temporal>, d: Detection) returns (r: Option<nat>)
    ensures r == LatestJoin(rules, maxGap, temporals, d, |temporals| - RECENT)
  {
    hide Joins;
    var n := |temporals|;
    while n > Max(0, |temporals| - RECENT)
      invariant 0 <= n <= |temporals|
      invariant LatestJoin(rules, maxGap, temporals, d, |temporals| - RECENT)
             == LatestJoin(rules, maxGap, temporals[..n], d, |temporals| - RECENT)
    {
      if Joins(rules, maxGap, temporals[n - 1], d) {
        return Some(n - 1);
      }
      assert temporals[..n][..n - 1] == temporals[..n - 1];
      n := n - 1;
    }
    r := None;
  }

  // ----- What the temporal objects are -----

  ghost function RowsOf(temporals: seq<Temporal>): multiset<Detection> {
    if temporals == [] then multiset{} else RowsOf(temporals[..|temporals| - 1]) + multiset(temporals[|temporals| - 1].rows)
  }

  function UsableRows(rules: Rules, ordered: seq<Detection>): seq<Detection> {
    if ordered == [] then []
    else
      var last := ordered[|ordered| - 1];
      UsableRows(rules, ordered[..|ordered| - 1]) + (if Usable(rules, last) then [last] else [])
  }

  lemma {:induction false} RowsAreKept(rules: Rules, maxGap: int, ordered: seq<Detection>)
    ensures forall i :: 0 <= i < |Temporals(rules, maxGap, ordered)| ==> Temporals(rules, maxGap, ordered)[i].rows != []
  {
    hide Usable, Joins;
    if ordered != [] {
      RowsAreKept(rules, maxGap, ordered[..|ordered| - 1]);
    }
  }

  /** The text the next row is compared with. */
  function TextOf(rules: Rules, rows: seq<Detection>): string
    requires rows != []
  {
    if |rows| == 1 then Strip(rows[0].text) else rules.consensus(rows)
  }

  /** The row lies mostly on the median box of those before it, and reads like them. */
  predicate FollowsOn(rules: Rules, rows: seq<Detection>, d: Detection)
    requires rows != []
  {
    && RowRect(d).Some? && LooseRect(MedianGeometry(rows)).Some?
    && Overlap(RowRect(d).value, LooseRect(MedianGeometry(rows)).value) >= 0.55
    && SimilarText(rules, TextOf(rules, rows), d.text)
  }

  ghost predicate EachFollows(rules: Rules, rows: seq<Detection>) {
    forall k :: 0 < k < |rows| ==> FollowsOn(rules, rows[..k], rows[k])
  }

  /** Usable rows in frame order without a longer pause than allowed. */
  ghost predicate Paced(rules: Rules, maxGap: int, rows: seq<Detection>) {
    && (forall k :: 0 <= k < |rows| ==> Usable(rules, rows[k]))
    && SortedBy(rows, ByFrame)
    && (forall k :: 0 < k < |rows| ==> rows[k].frame <= rows[k - 1].frame + maxGap)
  }

  /** Paced rows, each like those before it, that span the stored range, with their median box and their text. */
  ghost predicate SoundTemporal(rules: Rules, maxGap: int, t: Temporal) {
    && t.rows != [] && Paced(rules, maxGap, t.rows) && EachFollows(rules, t.rows)
    && t.start == t.rows[0].frame && t.end == t.rows[|t.rows| - 1].frame
    && t.anchor == LooseRect(MedianGeometry(t.rows)) && t.anchor.Some? && t.text == TextOf(rules, t.rows)
  }

  ghost predicate SoundTemporals(rules: Rules, maxGap: int, temporals: seq<Temporal>) {
    forall i :: 0 <= i < |temporals| ==> SoundTemporal(rules, maxGap, temporals[i])
  }

  lemma {:induction false} UsableBoxes(rules: Rules, rows: seq<Detection>)
    requires forall k :: 0 <= k < |rows| ==> Usable(rules, rows[k])
    ensures |BoxesOfRows(rows)| == |rows|
    ensures forall b :: b in BoxesOfRows(rows) ==> b.width > 0.0 && b.height > 0.0
  {
    if rows != [] {
      UsableBoxes(rules, rows[..|rows| - 1]);
      assert Usable(rules, rows[|rows| - 1]);
    }
  }

  /** The median of boxes with area has area, so a temporal never loses its anchor. */
  lemma MedianHasArea(rules: Rules, rows: seq<Detection>)
    requires rows != [] && forall k :: 0 <= k < |rows| ==> Usable(rules, rows[k])
    ensures LooseRect(MedianGeometry(rows)).Some?
  {
    UsableBoxes(rules, rows);
    hide BoxesOfRows, Usable, MedianOf;
    var boxes := BoxesOfRows(rows);
    var ws, hs := Map(boxes, (b: Box) => b.width), Map(boxes, (b: Box) => b.height);
    assert forall i :: 0 <= i < |boxes| ==> boxes[i] in boxes;
    MedianPositive(ws);
    MedianPositive(hs);
  }

  lemma MedianOfOne(d: Detection)
    requires RowRect(d).Some?
    ensures MedianGeometry([d]) == ReadBox(d.geometry).value
  {
    var box := ReadBox(d.geometry).value;
    assert [d][..0] == [];
    assert BoxesOfRows([d]) == [box];
    hide MedianBox;
    MedianOfCopies([box], box);
  }

  lemma OpenedIsSound(rules: Rules, maxGap: int, d: Detection)
    requires Usable(rules, d)
    ensures SoundTemporal(rules, maxGap, Opened(d))
  {
    hide MedianGeometry;
    MedianOfOne(d);
  }

  lemma JoiningFollows(rules: Rules, maxGap: int, t: Temporal, d: Detection)
    requires SoundTemporal(rules, maxGap, t)
    ensures Joins(rules, maxGap, t, d) <==> d.frame <= t.end + maxGap && FollowsOn(rules, t.rows, d)
  {
    hide MedianGeometry, SimilarText, Overlap, Usable, SortedBy, LooseRect, RowRect;
  }

  lemma OneMoreFollows(rules: Rules, rows: seq<Detection>, d: Detection)
    requires EachFollows(rules, rows) && (rows != [] ==> FollowsOn(rules, rows, d))
    ensures EachFollows(rules, rows + [d])
  {
    hide FollowsOn;
    var more := rows + [d];
    forall k | 0 < k < |more|
      ensures FollowsOn(rules, more[..k], more[k])
    {
      assert more[..k] == if k < |rows| then rows[..k] else rows;
    }
  }

  lemma OneMoreIsPaced(rules: Rules, maxGap: int, rows: seq<Detection>, d: Detection)
    requires Paced(rules, maxGap, rows) && Usable(rules, d)
    requires rows != [] ==> rows[|rows| - 1].frame <= d.frame <= rows[|rows| - 1].frame + maxGap
    ensures Paced(rules, maxGap, rows + [d])
  {
    hide Usable;
    assert rows != [] ==> forall k :: 0 <= k < |rows| - 1 ==> ByFrame(rows[k], rows[|rows| - 1]);
  }

  lemma ExtendedIsSound(rules: Rules, maxGap: int, t: Temporal, d: Detection)
    requires SoundTemporal(rules, maxGap, t) && Usable(rules, d) && t.end <= d.frame && Joins(rules, maxGap, t, d)
    ensures SoundTemporal(rules, maxGap, Extended(rules, t, d))
  {
    JoiningFollows(rules, maxGap, t, d);
    PacedAreUsable(rules, maxGap, t.rows);
    hide Usable, MedianGeometry, FollowsOn, EachFollows, Joins, LooseRect, RowRect, Strip, SimilarText, Paced;
    OneMoreFollows(rules, t.rows, d);
    OneMoreIsPaced(rules, maxGap, t.rows, d);
    MedianHasArea(rules, t.rows + [d]);
  }

  lemma PacedAreUsable(rules: Rules, maxGap: int, rows: seq<Detection>)
    requires Paced(rules, maxGap, rows)
    ensures forall k :: 0 <= k < |rows| ==> Usable(rules, rows[k])
  {
  }

  lemma {:induction false} RowsOfSum(a: seq<Temporal>, b: seq<Temporal>)
    ensures RowsOf(a + b) == RowsOf(a) + RowsOf(b)
  {
    if b == [] {
      assert a + b == a;
    } else {
      assert (a + b)[..|a + b| - 1] == a + b[..|b| - 1];
      RowsOfSum(a, b[..|b| - 1]);
    }
  }

  lemma RowsOfOne(t: Temporal)
    ensures RowsOf([t]) == multiset(t.rows)
  {
    assert [t][..0] == [];
  }

  lemma RowsOfUpdate(temporals: seq<Temporal>, i: nat, t: Temporal, d: Detection)
    requires i < |temporals| && t.rows == temporals[i].rows + [d]
    ensures RowsOf(temporals[i := t]) == RowsOf(temporals) + multiset{d}
  {
    hide RowsOf;
    var before, after := temporals[..i], temporals[i + 1..];
    assert temporals == before + [temporals[i]] + after;
    assert temporals[i := t] == before + [t] + after;
    RowsOfSum(before + [temporals[i]], after);
    RowsOfSum(before + [t], after);
    RowsOfSum(before, [temporals[i]]);
    RowsOfSum(before, [t]);
    RowsOfOne(temporals[i]);
    RowsOfOne(t);
  }

  lemma PlacedIsSound(rules: Rules, maxGap: int, temporals: seq<Temporal>, d: Detection)
    requires SoundTemporals(rules, maxGap, temporals) && Usable(rules, d)
    requires forall i :: 0 <= i < |temporals| ==> temporals[i].end <= d.frame
    ensures var placed := Placed(rules, maxGap, temporals, d);
      && SoundTemporals(rules, maxGap, placed)
      && (forall i :: 0 <= i < |placed| ==> placed[i].end <= d.frame)
      && RowsOf(placed) == RowsOf(temporals) + multiset{d}
  {
    hide SoundTemporal, Usable, MedianGeometry;
    match LatestJoin(rules, maxGap, temporals, d, |temporals| - RECENT) {
      case None =>
        OpenedIsSound(rules, maxGap, d);
        assert (temporals + [Opened(d)])[..|temporals|] == temporals;
      case Some(i) =>
        ExtendedIsSound(rules, maxGap, temporals[i], d);
        RowsOfUpdate(temporals, i, Extended(rules, temporals[i], d), d);
    }
  }

  /** The temporals partition the usable rows into sound ones. */
  lemma {:induction false} TemporalsAreSound(rules: Rules, maxGap: int, ordered: seq<Detection>)
    requires SortedBy(ordered, ByFrame)
    ensures var temporals := Temporals(rules, maxGap, ordered);
      && SoundTemporals(rules, maxGap, temporals)
      && (forall i :: 0 <= i < |temporals| ==> ordered != [] && temporals[i].end <= ordered[|ordered| - 1].frame)
      && RowsOf(temporals) == multiset(UsableRows(rules, ordered))
  {
    hide SoundTemporals, Usable, Placed;
    if ordered != [] {
      var front, d := ordered[..|ordered| - 1], ordered[|ordered| - 1];
      TemporalsAreSound(rules, maxGap, front);
      if front != [] {
        assert ByFrame(front[|front| - 1], d);
      }
      if Usable(rules, d) {
        PlacedIsSound(rules, maxGap, Temporals(rules, maxGap, front), d);
      }
    } else {
      assert SoundTemporals(rules, maxGap, []) by { NoTemporals(rules, maxGap); }
    }
  }

  lemma NoTemporals(rules: Rules, maxGap: int)
    ensures SoundTemporals(rules, maxGap, [])
  {
  }

  // ----- What the operator is shown -----

  /** A stored range that is not reversed, and holds the frame shown. */
  predicate Spanned(o: Reviewed) {
    o.startFrame.Value? && o.endFrame.Value? && o.frameIndex.Value? && o.startFrame.frame <= o.frameIndex.frame <= o.endFrame.frame
  }

  lemma ObjectIsSpanned(rules: Rules, maxGap: int, t: Temporal)
    requires SoundTemporal(rules, maxGap, t)
    ensures Spanned(ObjectOf(rules, t))
  {
    hide MedianGeometry, Usable, LooseRect, Showing;
    var d := RepresentativeRow(t.rows, rules.consensus(t.rows));
    RowInSpan(rules, maxGap, t, d);
    RowInSpan(rules, maxGap, t, t.rows[0]);
  }

  /** No row of a temporal lies outside its range. */
  lemma RowInSpan(rules: Rules, maxGap: int, t: Temporal, d: Detection)
    requires SoundTemporal(rules, maxGap, t) && d in t.rows
    ensures t.start <= d.frame <= t.end
  {
    hide MedianGeometry, Usable, LooseRect;
    var k :| 0 <= k < |t.rows| && t.rows[k] == d;
    assert k > 0 ==> ByFrame(t.rows[0], t.rows[k]);
    assert k < |t.rows| - 1 ==> ByFrame(t.rows[k], t.rows[|t.rows| - 1]);
  }

  lemma {:induction false} ObjectsAre(rules: Rules, temporals: seq<Temporal>, tracks: seq<Protected>, o: Reviewed)
    requires forall i :: 0 <= i < |temporals| ==> temporals[i].rows != []
    ensures o in ObjectsOf(rules, temporals, tracks) <==>
      exists i :: 0 <= i < |temporals| && IsReviewed(temporals[i], tracks) && ObjectOf(rules, temporals[i]) == o
  {
    hide IsReviewed, ObjectOf;
    if temporals != [] {
      var n := |temporals| - 1;
      ObjectsAre(rules, temporals[..n], tracks, o);
      assert forall i :: 0 <= i < n ==> temporals[..n][i] == temporals[i];
    }
  }

  lemma {:induction false} LegacyGeometry(rules: Rules, ordered: seq<Detection>)
    requires forall i :: 0 <= i < |ordered| ==> RowRect(ordered[i]).None?
    ensures forall o :: o in LegacyObjects(rules, ordered) ==> ReadRect(o.geometry).Err?
  {
    hide Padded;
    if ordered != [] {
      LegacyGeometry(rules, ordered[..|ordered| - 1]);
      assert RowRect(ordered[|ordered| - 1]).None?;
    }
  }

  /** Every object shown stores a range in order around its frame, or has no geometry the remediation step could use. */
  lemma NormalizedAreSpanned(rules: Rules, detections: seq<Detection>, tracks: seq<Protected>, maxGap: int)
    ensures forall o :: o in Normalized(rules, detections, tracks, maxGap) ==> Spanned(o) || ReadRect(o.geometry).Err?
  {
    hide Spanned, LegacyObjects, Temporals, ObjectsOf, IsReviewed, ObjectOf, ReadRect, RowRect, Sort;
    var ordered := Sort(detections, ByFrame);
    SortSorts(detections, ByFrame);
    if NoGeometry(ordered) {
      LegacyGeometry(rules, ordered);
    } else {
      var gap := Max(1, maxGap);
      TemporalsAreSound(rules, gap, ordered);
      RowsAreKept(rules, gap, ordered);
      forall o | o in ObjectsOf(rules, Temporals(rules, gap, ordered), tracks)
        ensures Spanned(o)
      {
        ObjectsAre(rules, Temporals(rules, gap, ordered), tracks, o);
        var i :| 0 <= i < |Temporals(rules, gap, ordered)| && ObjectOf(rules, Temporals(rules, gap, ordered)[i]) == o;
        ObjectIsSpanned(rules, gap, Temporals(rules, gap, ordered)[i]);
      }
    }
  }

  // ----- Which temporal a row joins, and which are shown -----

  /** The temporal is one of the last twelve, ends close enough before the row, and the row is like it. */
  ghost predicate MayJoin(rules: Rules, maxGap: int, temporals: seq<Temporal>, d: Detection, k: int) {
    && 0 <= k < |temporals| && k >= |temporals| - 12 && temporals[k].rows != []
    && d.frame <= temporals[k].end + maxGap && FollowsOn(rules, temporals[k].rows, d)
  }

  /** A row joins the last temporal it may join, at its end, and opens a new one exactly when there is none. */
  lemma WhereRowGoes(rules: Rules, maxGap: int, temporals: seq<Temporal>, d: Detection, k: int)
    requires SoundTemporals(rules, maxGap, temporals)
    ensures var placed := Placed(rules, maxGap, temporals, d);
      && (|placed| > |temporals| <==> forall i :: !MayJoin(rules, maxGap, temporals, d, i))
      && (|placed| > |temporals| ==> placed[..|temporals|] == temporals && |placed| == |temporals| + 1 && placed[|temporals|].rows == [d])
      && (MayJoin(rules, maxGap, temporals, d, k) && (forall i :: i > k ==> !MayJoin(rules, maxGap, temporals, d, i)) ==>
            && |placed| == |temporals| && placed[k].rows == temporals[k].rows + [d]
            && forall i :: 0 <= i < |temporals| && i != k ==> placed[i] == temporals[i])
  {
    hide FollowsOn, Joins, SoundTemporals, MedianGeometry, MayJoin, Extended, Opened;
    forall i
      ensures MayJoin(rules, maxGap, temporals, d, i) <==> 0 <= i < |temporals| && i >= |temporals| - 12 && Joins(rules, maxGap, temporals[i], d)
    {
      WhenItMayJoin(rules, maxGap, temporals, d, i);
    }
    OpenedAndExtended(rules, d);
  }

  lemma OpenedAndExtended(rules: Rules, d: Detection)
    ensures Opened(d).rows == [d] && forall t: Temporal :: Extended(rules, t, d).rows == t.rows + [d]
  {
  }

  lemma WhenItMayJoin(rules: Rules, maxGap: int, temporals: seq<Temporal>, d: Detection, i: int)
    requires SoundTemporals(rules, maxGap, temporals)
    ensures MayJoin(rules, maxGap, temporals, d, i) <==> 0 <= i < |temporals| && i >= |temporals| - 12 && Joins(rules, maxGap, temporals[i], d)
  {
    hide FollowsOn, Joins, SoundTemporal;
    if 0 <= i < |temporals| {
      assert SoundTemporal(rules, maxGap, temporals[i]);
      SoundHasRows(rules, maxGap, temporals[i]);
      JoiningFollows(rules, maxGap, temporals[i], d);
    }
  }

  lemma SoundHasRows(rules: Rules, maxGap: int, t: Temporal)
    requires SoundTemporal(rules, maxGap, t)
    ensures t.rows != [] && t.anchor.Some?
  {
  }

  /** Two rows or more, or one that a neighbouring frame confirms or that is half certain; and not on a protected track at its time. */
  ghost predicate Shown(t: Temporal, tracks: seq<Protected>)
    requires t.rows != [] && t.anchor.Some?
  {
    && (|t.rows| >= 2 || t.rows[0].confirmation.onAdjacentFrame || t.rows[0].confidence >= 0.5)
    && forall p :: p in tracks && t.start - 2 <= OrStart(p.end, p.start) && p.start - 2 <= OrStart(t.end, t.start) ==>
         Overlap(t.anchor.value, p.rect) < 0.70
  }

  /** A frame number of zero reads as the start. */
  function OrStart(f: int, start: int): int { if f == 0 then start else f }

  /** The row shows the text, or no row does. */
  ghost predicate Eligible(rows: seq<Detection>, text: string, k: int)
    requires 0 <= k < |rows|
  {
    Strip(rows[k].text) == text || forall i :: 0 <= i < |rows| ==> Strip(rows[i].text) != text
  }

  /** The first of the most confident eligible rows. */
  ghost predicate Represents(rows: seq<Detection>, text: string, k: int) {
    && 0 <= k < |rows| && Eligible(rows, text, k)
    && (forall i :: 0 <= i < |rows| && Eligible(rows, text, i) ==> rows[i].confidence <= rows[k].confidence)
    && (forall i :: 0 <= i < k && Eligible(rows, text, i) ==> rows[i].confidence < rows[k].confidence)
  }

  /** The first of the most confident rows that show the text. */
  ghost predicate FirstBest(rows: seq<Detection>, text: string, k: int) {
    && 0 <= k < |rows| && Strip(rows[k].text) == text
    && (forall i :: 0 <= i < |rows| && Strip(rows[i].text) == text ==> rows[i].confidence <= rows[k].confidence)
    && (forall i :: 0 <= i < k && Strip(rows[i].text) == text ==> rows[i].confidence < rows[k].confidence)
  }

  lemma OneMoreRow(front: seq<Detection>, last: Detection, text: string, k: int)
    ensures FirstBest(front, text, k) && (Strip(last.text) == text ==> last.confidence <= front[k].confidence) ==>
      FirstBest(front + [last], text, k)
    ensures Strip(last.text) == text && (forall i :: 0 <= i < |front| ==> Strip(front[i].text) != text) ==>
      FirstBest(front + [last], text, |front|)
    ensures FirstBest(front, text, k) && Strip(last.text) == text && last.confidence > front[k].confidence ==>
      FirstBest(front + [last], text, |front|)
  {
    hide Strip;
    var rows := front + [last];
    assert forall i :: 0 <= i < |front| ==> rows[i] == front[i];
  }

  lemma OneMoreIsCompared(shown: seq<Detection>, d: Detection)
    requires shown != []
    ensures (shown + [d])[MostConfident(shown + [d])] ==
      if d.confidence > shown[MostConfident(shown)].confidence then d else shown[MostConfident(shown)]
  {
    assert (shown + [d])[..|shown|] == shown;
  }

  lemma {:induction false} FirstShown(rows: seq<Detection>, text: string)
    ensures Showing(rows, text) == [] <==> forall i :: 0 <= i < |rows| ==> Strip(rows[i].text) != text
    ensures Showing(rows, text) != [] ==> exists k ::
      FirstBest(rows, text, k) && rows[k] == Showing(rows, text)[MostConfident(Showing(rows, text))]
  {
    hide Strip, FirstBest, MostConfident;
    if rows != [] {
      var n := |rows| - 1;
      var front, last, shown := rows[..n], rows[n], Showing(rows[..n], text);
      assert rows == front + [last];
      FirstShown(front, text);
      if shown == [] {
        OneMoreRow(front, last, text, 0);
        if Strip(last.text) == text {
          assert Showing(rows, text) == [last] && FirstBest(rows, text, n);
        }
      } else {
        forall k | FirstBest(front, text, k)
          ensures 0 <= k < n
        {
          InRange(front, text, k);
        }
        var k :| FirstBest(front, text, k) && front[k] == shown[MostConfident(shown)];
        OneMoreRow(front, last, text, k);
        OneMoreIsCompared(shown, last);
        var m := if Strip(last.text) == text && last.confidence > front[k].confidence then n else k;
        assert Showing(rows, text) == if Strip(last.text) == text then shown + [last] else shown;
        assert FirstBest(rows, text, m) && rows[m] == Showing(rows, text)[MostConfident(Showing(rows, text))];
      }
    }
  }

  lemma InRange(rows: seq<Detection>, text: string, k: int)
    requires FirstBest(rows, text, k)
    ensures 0 <= k < |rows|
  {
  }

  lemma RepresentativeIs(rows: seq<Detection>, text: string)
    requires rows != []
    ensures exists k :: Represents(rows, text, k) && rows[k] == RepresentativeRow(rows, text)
  {
    FirstShown(rows, text);
    hide Strip, Showing;
    if Showing(rows, text) != [] {
      var k :| FirstBest(rows, text, k) && rows[k] == Showing(rows, text)[MostConfident(Showing(rows, text))];
      assert Represents(rows, text, k);
    } else {
      assert Represents(rows, text, MostConfident(rows));
    }
  }

  /** The agreed text, the median box, the frames of the first and the last row, and the frame of the row that represents it. */
  ghost predicate Presents(rules: Rules, o: Reviewed, t: Temporal)
    requires t.rows != [] && t.anchor.Some?
  {
    && o.text == rules.consensus(t.rows)
    && o.geometry == Stored(MedianGeometry(t.rows))
    && o.contentId == "residual_content_" + rules.identity(rules.signature(o.text), t.rows[0].frame, t.rows[|t.rows| - 1].frame,
                                                             MedianGeometry(t.rows))
    && o.startFrame == Value(t.rows[0].frame) && o.endFrame == Value(t.rows[|t.rows| - 1].frame)
    && exists k :: Represents(t.rows, o.text, k) && o.frameIndex == Value(OrStart(t.rows[k].frame, t.start))
  }

  lemma ObjectPresents(rules: Rules, maxGap: int, t: Temporal)
    requires SoundTemporal(rules, maxGap, t)
    ensures Presents(rules, ObjectOf(rules, t), t)
  {
    hide MedianGeometry, Paced, EachFollows, LooseRect, RepresentativeRow, Represents, Stored;
    RepresentativeIs(t.rows, rules.consensus(t.rows));
  }

  lemma WhenItIsReviewed(rules: Rules, maxGap: int, t: Temporal, tracks: seq<Protected>)
    requires SoundTemporal(rules, maxGap, t)
    ensures IsReviewed(t, tracks) <==> Shown(t, tracks)
  {
    hide MedianGeometry, Paced, EachFollows, LooseRect, Overlap;
    assert forall k :: 0 <= k < |tracks| ==> tracks[k] in tracks;
    if IsReviewed(t, tracks) {
      forall p | p in tracks && t.start - 2 <= OrStart(p.end, p.start) && p.start - 2 <= OrStart(t.end, t.start)
        ensures Overlap(t.anchor.value, p.rect) < 0.70
      {
        var k :| 0 <= k < |tracks| && tracks[k] == p;
        assert !Touches(t, tracks[k]);
      }
    }
  }

  ghost predicate Anchored(temporals: seq<Temporal>) {
    forall i :: 0 <= i < |temporals| ==> temporals[i].rows != [] && temporals[i].anchor.Some?
  }

  /** The objects present the temporals that are shown, in their order: `kept` lists these. */
  ghost predicate Presented(rules: Rules, objects: seq<Reviewed>, temporals: seq<Temporal>, tracks: seq<Protected>, kept: seq<int>)
    requires Anchored(temporals)
  {
    && |kept| == |objects| && (forall i, j :: 0 <= i < j < |kept| ==> kept[i] < kept[j])
    && (forall k :: k in kept <==> 0 <= k < |temporals| && Shown(temporals[k], tracks))
    && forall i :: 0 <= i < |kept| ==> 0 <= kept[i] < |temporals| && Presents(rules, objects[i], temporals[kept[i]])
  }

  /** The objects made of the temporals present those of them that are shown. */
  ghost predicate PresentsShown(rules: Rules, temporals: seq<Temporal>, tracks: seq<Protected>, kept: seq<int>) {
    Anchored(temporals) && Presented(rules, ObjectsOf(rules, temporals, tracks), temporals, tracks, kept)
  }

  lemma {:induction false} ObjectsArePresented(rules: Rules, maxGap: int, temporals: seq<Temporal>, tracks: seq<Protected>)
    returns (kept: seq<int>)
    requires SoundTemporals(rules, maxGap, temporals)
    ensures PresentsShown(rules, temporals, tracks, kept)
  {
    SoundAreAnchored(rules, maxGap, temporals);
    hide SoundTemporals, Presented, IsReviewed, ObjectsOf;
    if temporals == [] {
      kept := [];
      NothingPresented(rules, tracks);
    } else {
      SoundFront(rules, maxGap, temporals);
      kept := ObjectsArePresented(rules, maxGap, temporals[..|temporals| - 1], tracks);
      kept := LastIsPresented(rules, maxGap, temporals, tracks, kept);
    }
  }

  lemma LastIsPresented(rules: Rules, maxGap: int, temporals: seq<Temporal>, tracks: seq<Protected>, kept: seq<int>) returns (more: seq<int>)
    requires temporals != [] && SoundTemporal(rules, maxGap, temporals[|temporals| - 1]) && Anchored(temporals)
    requires PresentsShown(rules, temporals[..|temporals| - 1], tracks, kept)
    ensures PresentsShown(rules, temporals, tracks, more)
  {
    hide Presented, IsReviewed, ObjectOf, Shown, Presents, SoundTemporal;
    var front, last := temporals[..|temporals| - 1], temporals[|temporals| - 1];
    WhenItIsReviewed(rules, maxGap, last, tracks);
    ObjectPresents(rules, maxGap, last);
    var objects := ObjectsOf(rules, front, tracks);
    OneMoreObject(rules, objects, ObjectOf(rules, last), front, last, tracks, kept);
    assert temporals == front + [last] && objects + [] == objects;
    more := if IsReviewed(last, tracks) then kept + [|front|] else kept;
  }

  lemma SoundFront(rules: Rules, maxGap: int, temporals: seq<Temporal>)
    requires SoundTemporals(rules, maxGap, temporals) && temporals != []
    ensures SoundTemporals(rules, maxGap, temporals[..|temporals| - 1]) && SoundTemporal(rules, maxGap, temporals[|temporals| - 1])
  {
    hide SoundTemporal;
  }

  lemma NothingPresented(rules: Rules, tracks: seq<Protected>)
    ensures Presented(rules, ObjectsOf(rules, [], tracks), [], tracks, [])
  {
  }

  lemma OneMoreObject(rules: Rules, objects: seq<Reviewed>, o: Reviewed, temporals: seq<Temporal>, t: Temporal, tracks: seq<Protected>,
                      kept: seq<int>)
    requires Anchored(temporals) && t.rows != [] && t.anchor.Some?
    requires Presented(rules, objects, temporals, tracks, kept) && Presents(rules, o, t)
    ensures Anchored(temporals + [t])
    ensures if Shown(t, tracks) then Presented(rules, objects + [o], temporals + [t], tracks, kept + [|temporals|])
            else Presented(rules, objects, temporals + [t], tracks, kept)
  {
    hide Shown, Presents;
    var all := temporals + [t];
    assert forall i :: 0 <= i < |temporals| ==> all[i] == temporals[i];
    assert forall i :: 0 <= i < |kept| ==> kept[i] in kept;
  }

  lemma SoundAreAnchored(rules: Rules, maxGap: int, temporals: seq<Temporal>)
    requires SoundTemporals(rules, maxGap, temporals)
    ensures Anchored(temporals)
  {
    hide SoundTemporal;
    forall i | 0 <= i < |temporals|
      ensures temporals[i].rows != [] && temporals[i].anchor.Some?
    {
      SoundHasRows(rules, maxGap, temporals[i]);
    }
  }

  /**
   * With some geometry to go by, the operator is shown the temporals that are not noise and not on a protected track, in order,
   * each as its agreed text at its median box over the frames of its rows.
   */
  lemma NormalizedArePresented(rules: Rules, detections: seq<Detection>, tracks: seq<Protected>, maxGap: int) returns (kept: seq<int>)
    requires exists d :: d in detections && RowRect(d).Some?
    ensures var temporals := Temporals(rules, Max(1, maxGap), Sort(detections, ByFrame));
      && SoundTemporals(rules, Max(1, maxGap), temporals) && Anchored(temporals)
      && Presented(rules, Normalized(rules, detections, tracks, maxGap), temporals, tracks, kept)
  {
    hide ObjectsOf, Presented, SoundTemporals, RowRect, Sort, Temporals;
    var ordered, gap := Sort(detections, ByFrame), Max(1, maxGap);
    SortSorts(detections, ByFrame);
    var d :| d in detections && RowRect(d).Some?;
    assert d in multiset(detections) && d in multiset(ordered);
    TemporalsAreSound(rules, gap, ordered);
    RowsAreKept(rules, gap, ordered);
    kept := ObjectsArePresented(rules, gap, Temporals(rules, gap, ordered), tracks);
  }
}
