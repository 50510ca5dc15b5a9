/** Turning a settled window into a proposed occurrence: the Phase-1 rows it overlaps, the cut to a tail, and the render text. */
module Occurrences {
  import opened Prelude
  import opened Text
  import opened Sorting
  import opened Geometry
  import opened ResidualEvidence
  import opened WindowDecision
  import opened Clustering

  /** A track of the rendered subtitles. */
  datatype RenderTrack = RenderTrack(textId: string, contentId: string, textVi: string, approved: bool)

  /** What an occurrence is compared with; `approvedText` gives the approved source text behind a text id, if any. */
  datatype Scene = Scene(script: Script, width: int, height: int, encoded: bool, timeline: seq<TimelineRow>, tracks: seq<RenderTrack>,
                         approvedText: string -> string)

  /** The text ids of the overlapped rows: rendered with another text, with the same one, or not rendered at all. */
  datatype Refs = Refs(conflicting: seq<string>, same: seq<string>, unrendered: seq<string>)

  datatype Occurrence = Occurrence(start: int, end: int, geometry: Box, text: string, render: string, same: seq<string>,
                                   unrendered: seq<string>)

  datatype EmissionError =
    | MatchesExisting(ids: seq<string>) | NoApprovedTranslation(id: string) | InvalidTarget(id: string) | NeedsTranslation(text: string)

  function RowStart(row: TimelineRow): int { OrDefault(row.start, 0) }

  /** The end as compared with a window; a missing end and an end of zero are the start. */
  function RowEnd(row: TimelineRow): int { OrDefault(row.end, RowStart(row)) }

  /** The end as used for the cut; a missing end is zero. */
  function CutEnd(row: TimelineRow): int { OrDefault(row.end, 0) }

  predicate Meets(row: TimelineRow, w: Window) { RowStart(row) <= w.end && w.start <= RowEnd(row) }

  function PlaceOf(row: TimelineRow, width: int, height: int): Rect
    requires |row.coords| >= 4 && width >= 1 && height >= 1
  {
    Rect(row.coords[0] / width as real, row.coords[1] / height as real, row.coords[2] / width as real, row.coords[3] / height as real)
  }

  predicate Overlaps(scene: Scene, row: TimelineRow, w: Window)
    requires scene.width >= 1 && scene.height >= 1 && w.matches != []
  {
    && Meets(row, w) && |row.coords| >= 4
    && Overlap(Corners(GeometryOf(w)), PlaceOf(row, scene.width, scene.height)) >= 0.70
  }

  predicate Rendered(scene: Scene, id: string) { id != "" && exists i :: 0 <= i < |scene.tracks| && scene.tracks[i].textId == id }

  predicate ShowsText(scene: Scene, id: string, text: string) {
    scene.script.signature(scene.approvedText(id)) != "" && scene.script.signature(scene.approvedText(id)) == scene.script.signature(text)
  }

  /** The row covers the residual and is rendered with another text. */
  predicate Conflicts(scene: Scene, row: TimelineRow, w: Window, text: string)
    requires scene.width >= 1 && scene.height >= 1 && w.matches != []
  {
    Overlaps(scene, row, w) && Rendered(scene, row.textId) && !ShowsText(scene, row.textId, text)
  }

  function Noted(scene: Scene, refs: Refs, row: TimelineRow, w: Window, text: string): Refs
    requires scene.width >= 1 && scene.height >= 1 && w.matches != []
  {
    var id := row.textId;
    if !Overlaps(scene, row, w) then refs
    else if !Rendered(scene, id) then refs.(unrendered := refs.unrendered + [id])
    else if ShowsText(scene, id, text) then refs.(same := refs.same + [id])
    else refs.(conflicting := refs.conflicting + [id])
  }

  function RefsOf(scene: Scene, rows: seq<TimelineRow>, w: Window, text: string): Refs
    requires scene.width >= 1 && scene.height >= 1 && w.matches != []
  {
    if rows == [] then Refs([], [], []) else Noted(scene, RefsOf(scene, rows[..|rows| - 1], w, text), rows[|rows| - 1], w, text)
  }

  /** The row a text id stands for: the last one stored under it. */
  function RowFor(rows: seq<TimelineRow>, id: string): Option<TimelineRow> {
    if rows == [] then None
    else if rows[|rows| - 1].textId == id then Some(rows[|rows| - 1])
    else RowFor(rows[..|rows| - 1], id)
  }

  predicate Translates(track: RenderTrack, ids: seq<string>) {
    track.textId != "" && track.textId in ids && track.approved && track.contentId != "" && Strip(track.textVi) != ""
  }

  /** The approved translations of the listed texts. */
  function TranslationsOf(tracks: seq<RenderTrack>, ids: seq<string>): seq<(string, string)> {
    if tracks == [] then []
    else
      var last := tracks[|tracks| - 1];
      TranslationsOf(tracks[..|tracks| - 1], ids) + (if Translates(last, ids) then [(last.contentId, Strip(last.textVi))] else [])
  }

  /** The one translation they all have, if there is exactly one. */
  function SharedTranslation(tracks: seq<RenderTrack>, ids: seq<string>): Option<(string, string)> {
    var found := TranslationsOf(tracks, ids);
    if found != [] && forall i :: 0 <= i < |found| ==> found[i] == found[0] then Some(found[0]) else None
  }

  /** `sorted` of the text ids, and the first of them. */
  function LeastId(ids: seq<string>): string
    requires ids != []
  {
    Sort(ids, TextLe)[0]
  }

  /** The overlapped subtitle whose tail is taken; only encoded output has one. */
  function TargetId(scene: Scene, w: Window, text: string): Option<string>
    requires scene.width >= 1 && scene.height >= 1 && w.matches != []
  {
    var conflicting := RefsOf(scene, scene.timeline, w, text).conflicting;
    if scene.encoded && conflicting != [] then Some(LeastId(conflicting)) else None
  }

  function TargetRow(scene: Scene, w: Window, text: string): Option<TimelineRow>
    requires scene.width >= 1 && scene.height >= 1 && w.matches != []
  {
    var id := TargetId(scene, w, text);
    if id.None? then None else RowFor(scene.timeline, id.value)
  }

  /** An occurrence over a rendered subtitle begins no earlier than that subtitle ends; its own end is not touched. */
  function CutStart(w: Window, target: TimelineRow): int { Max(w.start, CutEnd(target)) }

  function Completed(scene: Scene, w: Window, text: string, suggested: string, start: int, refs: Refs): Result<Occurrence, EmissionError>
    requires w.matches != []
  {
    var carried := SharedTranslation(scene.tracks, refs.same);
    var render := if carried.Some? then carried.value.1 else Strip(suggested);
    if render == "" then Err(NeedsTranslation(text))
    else Ok(Occurrence(start, w.end, GeometryOf(w), text, render, refs.same, refs.unrendered))
  }

  /** The proposed occurrence of a settled window. */
  function Emitted(scene: Scene, w: Window, text: string, suggested: string): Result<Occurrence, EmissionError>
    requires scene.width >= 1 && scene.height >= 1 && w.matches != []
  {
    var refs := RefsOf(scene, scene.timeline, w, text);
    if refs.conflicting == [] then Completed(scene, w, text, suggested, w.start, refs)
    else if !scene.encoded then Err(MatchesExisting(refs.conflicting))
    else
      var id := LeastId(refs.conflicting);
      var target := RowFor(scene.timeline, id);
      if target.None? || SharedTranslation(scene.tracks, [id]).None? then Err(NoApprovedTranslation(id))
      else if |target.value.coords| != 4 then Err(InvalidTarget(id))
      else Completed(scene, w, text, suggested, CutStart(w, target.value), refs.(same := []))
  }

  method EmitOccurrence(scene: Scene, w: Window, text: string, suggested: string) returns (r: Result<Occurrence, EmissionError>)
    requires scene.width >= 1 && scene.height >= 1 && w.matches != []
    ensures r == Emitted(scene, w, text, suggested)
  {
    hide Completed, SharedTranslation, LeastId, RefsOf, RowFor;
    var refs := CollectRefs(scene, w, text);
    if refs.conflicting != [] && !scene.encoded {
      return Err(MatchesExisting(refs.conflicting));
    }
    var start, same := w.start, refs.same;
    if refs.conflicting != [] {
      var id := LeastId(refs.conflicting);
      var target := RowFor(scene.timeline, id);
      if target.None? || SharedTranslation(scene.tracks, [id]).None? {
        return Err(NoApprovedTranslation(id));
      }
      if |target.value.coords| != 4 {
        return Err(InvalidTarget(id));
      }
      start, same := CutStart(w, target.value), [];
    }
    r := Completed(scene, w, text, suggested, start, refs.(same := same));
  }

  method CollectRefs(scene: Scene, w: Window, text: string) returns (refs: Refs)
    requires scene.width >= 1 && scene.height >= 1 && w.matches != []
    ensures refs == RefsOf(scene, scene.timeline, w, text)
  {
    hide Overlaps, Rendered, ShowsText;
    refs := Refs([], [], []);
    var i := 0;
    while i < |scene.timeline|
      invariant 0 <= i <= |scene.timeline|
      invariant refs == RefsOf(scene, scene.timeline[..i], w, text)
    {
      var row := scene.timeline[i];
      assert scene.timeline[..i + 1][..i] == scene.timeline[..i];
      if Overlaps(scene, row, w) {
        if !Rendered(scene, row.textId) {
          refs := refs.(unrendered := refs.unrendered + [row.textId]);
        } else if ShowsText(scene, row.textId, text) {
          refs := refs.(same := refs.same + [row.textId]);
        } else {
          refs := refs.(conflicting := refs.conflicting + [row.textId]);
        }
      }
      i := i + 1;
    }
    assert scene.timeline[..i] == scene.timeline;
  }

  // ----- What is emitted -----

  lemma {:induction false} ConflictingAre(scene: Scene, rows: seq<TimelineRow>, w: Window, text: string, id: string)
    requires scene.width >= 1 && scene.height >= 1 && w.matches != []
    ensures id in RefsOf(scene, rows, w, text).conflicting <==>
      exists row :: row in rows && row.textId == id && Conflicts(scene, row, w, text)
  {
    hide Overlaps, Rendered, ShowsText;
    if rows != [] {
      var front, last := rows[..|rows| - 1], rows[|rows| - 1];
      ConflictingAre(scene, front, w, text, id);
      assert forall row :: row in rows <==> row in front || row == last by {
        assert rows == front + [last];
      }
    }
  }

  lemma LeastIs(ids: seq<string>)
    requires ids != []
    ensures LeastId(ids) in ids && forall id :: id in ids ==> TextLe(LeastId(ids), id)
  {
    var ordered := Sort(ids, TextLe);
    TextLeIsATotalOrder();
    SortSorts(ids, TextLe);
    SameMembers(ids, TextLe, ordered[0]);
    forall id | id in ids
      ensures TextLe(ordered[0], id)
    {
      SameMembers(ids, TextLe, id);
      TextLeIsTotal(id, id);
    }
  }

  lemma TextLeIsATotalOrder()
    ensures TotalPreorder(TextLe)
  {
    forall a, b
      ensures TextLe(a, b) || TextLe(b, a)
    {
      TextLeIsTotal(a, b);
    }
    forall a, b, c | TextLe(a, b) && TextLe(b, c)
      ensures TextLe(a, c)
    {
      TextLeIsTransitive(a, b, c);
    }
  }

  lemma {:induction false} RowForIs(rows: seq<TimelineRow>, id: string)
    ensures RowFor(rows, id).Some? <==> exists row :: row in rows && row.textId == id
    ensures RowFor(rows, id).Some? ==> RowFor(rows, id).value in rows && RowFor(rows, id).value.textId == id
  {
    if rows != [] {
      var front, last := rows[..|rows| - 1], rows[|rows| - 1];
      RowForIs(front, id);
      assert forall row :: row in rows <==> row in front || row == last by {
        assert rows == front + [last];
      }
    }
  }

  /** No text id of an overlapped row stands for two rows. */
  ghost predicate OneRowPerId(rows: seq<TimelineRow>) {
    forall a, b :: a in rows && b in rows && a.textId == b.textId ==> a == b
  }

  /** There is a target exactly when encoded output has a conflicting row; its id is the least of the conflicting ones. */
  lemma TargetIs(scene: Scene, w: Window, text: string)
    requires scene.width >= 1 && scene.height >= 1 && w.matches != []
    ensures TargetRow(scene, w, text).Some? <==>
      scene.encoded && exists row :: row in scene.timeline && Conflicts(scene, row, w, text)
    ensures TargetRow(scene, w, text).Some? ==>
      var target := TargetRow(scene, w, text).value;
      && target in scene.timeline
      && (forall row :: row in scene.timeline && Conflicts(scene, row, w, text) ==> TextLe(target.textId, row.textId))
      && (exists row :: row in scene.timeline && row.textId == target.textId && Conflicts(scene, row, w, text))
      && (OneRowPerId(scene.timeline) ==> Conflicts(scene, target, w, text))
  {
    hide Conflicts, RefsOf, LeastId, TextLe;
    var conflicting := RefsOf(scene, scene.timeline, w, text).conflicting;
    forall id
      ensures id in conflicting <==> exists row :: row in scene.timeline && row.textId == id && Conflicts(scene, row, w, text)
    {
      ConflictingAre(scene, scene.timeline, w, text, id);
    }
    if conflicting != [] {
      LeastIs(conflicting);
      RowForIs(scene.timeline, LeastId(conflicting));
      assert conflicting[0] in conflicting;
    }
    if row :| row in scene.timeline && Conflicts(scene, row, w, text) {
      assert row.textId in conflicting;
    }
  }

  /** The window of what is emitted: the settled one, with its start moved to the end of the target where there is one. */
  lemma EmittedWindow(scene: Scene, w: Window, text: string, suggested: string)
    requires scene.width >= 1 && scene.height >= 1 && w.matches != [] && Emitted(scene, w, text, suggested).Ok?
    ensures var o, target := Emitted(scene, w, text, suggested).value, TargetRow(scene, w, text);
      && o.end == w.end && o.geometry == GeometryOf(w) && o.text == text && o.render != ""
      && o.start == (if target.Some? then CutStart(w, target.value) else w.start)
    ensures !scene.encoded ==> forall row :: row in scene.timeline ==> !Conflicts(scene, row, w, text)
  {
    hide SharedTranslation, LeastId, RefsOf, RowFor, Conflicts, GeometryOf;
    forall row | row in scene.timeline && Conflicts(scene, row, w, text)
      ensures row.textId in RefsOf(scene, scene.timeline, w, text).conflicting
    {
      ConflictingAre(scene, scene.timeline, w, text, row.textId);
    }
  }

  /** What the cut does to a settled window, whichever row the target id stands for. */
  lemma WhenCutKeepsWindow(w: Window, target: TimelineRow, r: int, frameCount: int)
    requires Holds(w.start, w.end, r, frameCount)
    ensures 0 <= CutStart(w, target) <= w.end < frameCount <==> CutEnd(target) <= w.end
    ensures Holds(CutStart(w, target), w.end, r, frameCount) <==> CutEnd(target) <= r
    ensures Meets(target, w) ==> CutStart(w, target) == if CutEnd(target) != 0 then CutEnd(target) else w.start
  {
  }

  /**
   * An occurrence emitted for a window around frame r lies in the video exactly when the subtitle it overlaps, if any, ends
   * no later than the window, and still holds r exactly when that subtitle ends no later than r. With one row per text id it
   * then begins where that subtitle ends. Output that is not encoded is never cut.
   */
  lemma WhenEmittedHolds(scene: Scene, w: Window, text: string, suggested: string, r: int, frameCount: int)
    requires scene.width >= 1 && scene.height >= 1 && w.matches != [] && Emitted(scene, w, text, suggested).Ok?
    requires Holds(w.start, w.end, r, frameCount)
    ensures var o, target := Emitted(scene, w, text, suggested).value, TargetRow(scene, w, text);
      && (0 <= o.start <= o.end < frameCount <==> (target.Some? ==> CutEnd(target.value) <= w.end))
      && (Holds(o.start, o.end, r, frameCount) <==> (target.Some? ==> CutEnd(target.value) <= r))
      && (target.Some? && OneRowPerId(scene.timeline) ==>
            o.start == if CutEnd(target.value) != 0 then CutEnd(target.value) else w.start)
      && (!scene.encoded ==> target.None?)
  {
    hide Emitted, Meets, CutStart, Holds;
    EmittedWindow(scene, w, text, suggested);
    TargetIs(scene, w, text);
    var target := TargetRow(scene, w, text);
    if target.Some? {
      WhenCutKeepsWindow(w, target.value, r, frameCount);
    } else {
      WindowIsInVideo(w, r, frameCount);
    }
  }

  lemma WindowIsInVideo(w: Window, r: int, frameCount: int)
    requires Holds(w.start, w.end, r, frameCount)
    ensures 0 <= w.start <= w.end < frameCount
  {
  }

  // ----- Its render text, and the rows it lists -----

  /** The one approved translation of the listed texts: some track gives it, and all that translate one of them agree. */
  ghost predicate SoleTranslation(tracks: seq<RenderTrack>, ids: seq<string>, t: (string, string)) {
    && (exists i :: 0 <= i < |tracks| && Translates(tracks[i], ids) && t == (tracks[i].contentId, Strip(tracks[i].textVi)))
    && (forall i :: 0 <= i < |tracks| && Translates(tracks[i], ids) ==> t == (tracks[i].contentId, Strip(tracks[i].textVi)))
  }

  lemma {:induction false} TranslationsAre(tracks: seq<RenderTrack>, ids: seq<string>, t: (string, string))
    ensures t in TranslationsOf(tracks, ids) <==>
      exists i :: 0 <= i < |tracks| && Translates(tracks[i], ids) && t == (tracks[i].contentId, Strip(tracks[i].textVi))
  {
    hide Translates, Strip;
    if tracks != [] {
      var n := |tracks| - 1;
      TranslationsAre(tracks[..n], ids, t);
      assert forall i :: 0 <= i < n ==> tracks[..n][i] == tracks[i];
    }
  }

  lemma SharedIsSole(tracks: seq<RenderTrack>, ids: seq<string>, t: (string, string))
    ensures SharedTranslation(tracks, ids) == Some(t) <==> SoleTranslation(tracks, ids, t)
  {
    var found := TranslationsOf(tracks, ids);
    hide TranslationsOf, Translates, Strip;
    forall x
      ensures x in found <==> exists i :: 0 <= i < |tracks| && Translates(tracks[i], ids) && x == (tracks[i].contentId, Strip(tracks[i].textVi))
    {
      TranslationsAre(tracks, ids, x);
    }
    if SharedTranslation(tracks, ids) == Some(t) {
      forall i | 0 <= i < |tracks| && Translates(tracks[i], ids)
        ensures t == (tracks[i].contentId, Strip(tracks[i].textVi))
      {
        assert (tracks[i].contentId, Strip(tracks[i].textVi)) in found;
      }
      assert found[0] in found;
    }
    if SoleTranslation(tracks, ids, t) {
      forall i | 0 <= i < |found|
        ensures found[i] == t
      {
        assert found[i] in found;
      }
      assert t in found;
    }
  }

  lemma {:induction false} ListedRowsAre(scene: Scene, rows: seq<TimelineRow>, w: Window, text: string, id: string)
    requires scene.width >= 1 && scene.height >= 1 && w.matches != []
    ensures var refs := RefsOf(scene, rows, w, text);
      && (id in refs.same <==>
            exists row :: row in rows && row.textId == id && Overlaps(scene, row, w) && Rendered(scene, id) && ShowsText(scene, id, text))
      && (id in refs.unrendered <==> exists row :: row in rows && row.textId == id && Overlaps(scene, row, w) && !Rendered(scene, id))
  {
    hide Overlaps, Rendered, ShowsText;
    if rows != [] {
      var front, last := rows[..|rows| - 1], rows[|rows| - 1];
      ListedRowsAre(scene, front, w, text, id);
      assert forall row :: row in rows <==> row in front || row == last by {
        assert rows == front + [last];
      }
    }
  }

  /**
   * An occurrence lists the rendered rows of its own text over it, unless it is cut to a target, and the rows that are not
   * rendered. It takes the one approved translation of the former, and without exactly one the suggestion.
   */
  lemma EmittedText(scene: Scene, w: Window, text: string, suggested: string, id: string)
    requires scene.width >= 1 && scene.height >= 1 && w.matches != [] && Emitted(scene, w, text, suggested).Ok?
    ensures var o := Emitted(scene, w, text, suggested).value;
      && (id in o.same <==> TargetRow(scene, w, text).None? && exists row ::
            row in scene.timeline && row.textId == id && Overlaps(scene, row, w) && Rendered(scene, id) && ShowsText(scene, id, text))
      && (id in o.unrendered <==> exists row ::
            row in scene.timeline && row.textId == id && Overlaps(scene, row, w) && !Rendered(scene, id))
      && (forall t :: SoleTranslation(scene.tracks, o.same, t) ==> o.render == t.1)
      && ((forall t :: !SoleTranslation(scene.tracks, o.same, t)) ==> o.render == Strip(suggested))
  {
    ListedRowsAre(scene, scene.timeline, w, text, id);
    EmittedParts(scene, w, text, suggested);
    hide *;
    TranslatedBySole(scene.tracks, Emitted(scene, w, text, suggested).value.same);
  }

  lemma TranslatedBySole(tracks: seq<RenderTrack>, ids: seq<string>)
    ensures forall t :: SharedTranslation(tracks, ids) == Some(t) <==> SoleTranslation(tracks, ids, t)
    ensures SharedTranslation(tracks, ids).Some? ==> exists t :: SoleTranslation(tracks, ids, t)
  {
    hide SharedTranslation;
    forall t
      ensures SharedTranslation(tracks, ids) == Some(t) <==> SoleTranslation(tracks, ids, t)
    {
      SharedIsSole(tracks, ids, t);
    }
    WhenTranslated(tracks, ids);
  }

  lemma EmittedParts(scene: Scene, w: Window, text: string, suggested: string)
    requires scene.width >= 1 && scene.height >= 1 && w.matches != [] && Emitted(scene, w, text, suggested).Ok?
    ensures var o, refs := Emitted(scene, w, text, suggested).value, RefsOf(scene, scene.timeline, w, text);
      && o.same == (if TargetRow(scene, w, text).Some? then [] else refs.same) && o.unrendered == refs.unrendered
      && o.render == (if SharedTranslation(scene.tracks, o.same).Some? then SharedTranslation(scene.tracks, o.same).value.1 else Strip(suggested))
  {
    TargetRowExists(scene, w, text);
    hide RefsOf, SharedTranslation, LeastId, RowFor, Strip, GeometryOf;
  }

  lemma TargetRowExists(scene: Scene, w: Window, text: string)
    requires scene.width >= 1 && scene.height >= 1 && w.matches != []
    ensures TargetRow(scene, w, text).Some? <==> scene.encoded && RefsOf(scene, scene.timeline, w, text).conflicting != []
  {
    hide RefsOf, LeastId, Conflicts;
    var conflicting := RefsOf(scene, scene.timeline, w, text).conflicting;
    if conflicting != [] {
      LeastIs(conflicting);
      ConflictingAre(scene, scene.timeline, w, text, LeastId(conflicting));
      RowForIs(scene.timeline, LeastId(conflicting));
    }
  }

  /**
   * A row is over the residual exactly when their frames meet, an end of zero or none being the start, and the residual scaled to
   * pixels covers at least 0.70 of the smaller of itself and the stored box.
   */
  lemma WhenRowOverlaps(scene: Scene, row: TimelineRow, w: Window)
    requires scene.width >= 1 && scene.height >= 1 && w.matches != []
    ensures var first := if row.start.Some? then row.start.value else 0;
      var last := if row.end.Some? && row.end.value != 0 then row.end.value else first;
      Overlaps(scene, row, w) <==>
        && first <= w.end && w.start <= last && |row.coords| >= 4
        && Overlap(Affine(Corners(GeometryOf(w)), 0.0, 0.0, scene.width as real, scene.height as real),
                   Rect(row.coords[0], row.coords[1], row.coords[2], row.coords[3])) >= 0.70
  {
    hide Overlap, GeometryOf;
    if |row.coords| >= 4 {
      var place, pixels := PlaceOf(row, scene.width, scene.height), Rect(row.coords[0], row.coords[1], row.coords[2], row.coords[3]);
      var kx, ky := scene.width as real, scene.height as real;
      ScaledBack(row.coords[0], kx);
      ScaledBack(row.coords[1], ky);
      ScaledBack(row.coords[2], kx);
      ScaledBack(row.coords[3], ky);
      assert Affine(place, 0.0, 0.0, kx, ky) == pixels;
      OverlapUnderAffine(Corners(GeometryOf(w)), place, 0.0, 0.0, kx, ky);
    }
  }

  lemma ScaledBack(x: real, k: real)
    requires k > 0.0
    ensures 0.0 + (x / k) * k == x
  {
  }

  /**
   * An occurrence is emitted exactly when no rendered row of another text is over it, or the output is encoded and the target has
   * one approved translation and four coordinates; and when it has a translation of its own or a suggestion.
   */
  lemma WhenOccurrenceIsEmitted(scene: Scene, w: Window, text: string, suggested: string)
    requires scene.width >= 1 && scene.height >= 1 && w.matches != []
    ensures var r, target := Emitted(scene, w, text, suggested), TargetRow(scene, w, text);
      var refs := RefsOf(scene, scene.timeline, w, text);
      var own := if target.Some? then [] else refs.same;
      && (r.Ok? <==>
            && (refs.conflicting == [] || (target.Some? && |target.value.coords| == 4
                                           && exists t :: SoleTranslation(scene.tracks, [target.value.textId], t)))
            && (Strip(suggested) != "" || exists t :: SoleTranslation(scene.tracks, own, t)))
      && (refs.conflicting != [] && !scene.encoded ==> r == Err(MatchesExisting(refs.conflicting)))
  {
    var refs := RefsOf(scene, scene.timeline, w, text);
    TargetRowExists(scene, w, text);
    hide Overlaps, Rendered, ShowsText, RefsOf, Strip, GeometryOf, LeastId;
    var target := TargetRow(scene, w, text);
    if target.Some? {
      RowForIs(scene.timeline, LeastId(refs.conflicting));
      WhenTranslated(scene.tracks, [LeastId(refs.conflicting)]);
    }
    WhenTranslated(scene.tracks, if target.Some? then [] else refs.same);
  }

  /** A shared translation is there exactly when there is a sole one, and is never empty. */
  lemma WhenTranslated(tracks: seq<RenderTrack>, ids: seq<string>)
    ensures SharedTranslation(tracks, ids).Some? <==> exists t :: SoleTranslation(tracks, ids, t)
    ensures SharedTranslation(tracks, ids).Some? ==> SharedTranslation(tracks, ids).value.1 != ""
  {
    hide SharedTranslation, Strip;
    forall t
      ensures SharedTranslation(tracks, ids) == Some(t) <==> SoleTranslation(tracks, ids, t)
    {
      SharedIsSole(tracks, ids, t);
    }
    if SharedTranslation(tracks, ids).Some? {
      assert SoleTranslation(tracks, ids, SharedTranslation(tracks, ids).value);
    }
  }
}
