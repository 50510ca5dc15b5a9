/** Recording a Phase 2 decision set: fresh decisions, preserved earlier approvals, and what is written in which order. */
module OperatorReview {
  import opened Prelude
  import opened Text
  import opened Keyed
  import opened Phase2Rows
  import opened Phase2Review
  import opened Phase2Chain

  datatype Approval = Approval(contentId: string, decision: string, reviewHash: string, text: string, reviewer: string, reviewedAt: string)

  datatype ApprovalFile = ApprovalFile(phase1Ref: string, approvals: seq<Approval>)

  datatype TimelineRow = TimelineRow(contentId: string, reviewHash: string)

  /** What the audit counts: the approvals written, the fresh decisions by kind, and the earlier approvals kept. */
  datatype ReviewCounts = ReviewCounts(objects: nat, edited: nat, plain: nat, preserved: nat)

  datatype Recording = Recording(file: ApprovalFile, counts: ReviewCounts)

  const PRESERVE_SOURCE := "PRESERVE_SOURCE"

  function DecisionIds(decisions: seq<Decision>): (ids: seq<string>)
    ensures |ids| == |decisions|
  {
    Map(decisions, (d: Decision) => d.contentId)
  }

  function TimelineIds(timeline: seq<TimelineRow>): (ids: seq<string>)
    ensures |ids| == |timeline|
  {
    Map(timeline, (row: TimelineRow) => row.contentId)
  }

  function DecideObject(o: QueueObject, d: Decision, reviewer: string, reviewedAt: string): Result<Approval, ReviewError> {
    var decision, text := Upper(d.decision), Strip(d.text);
    if decision !in {APPROVE, EDIT, REJECT_UI, PRESERVE_SOURCE} then Err(UnsupportedDecision(o.contentId))
    else if decision !in {REJECT_UI, PRESERVE_SOURCE} && text == "" then Err(TextMissing(o.contentId))
    else if decision == APPROVE && text != Strip(o.candidate) then Err(ApproveChanged(o.contentId))
    else Ok(Approval(o.contentId, decision, o.reviewHash, text, reviewer, reviewedAt))
  }

  /** The fresh decisions by content id. */
  function FreshRows(keys: seq<string>, objects: seq<QueueObject>, decisions: seq<Decision>, reviewer: string, reviewedAt: string)
    : Result<map<string, Approval>, ReviewError>
    requires forall id :: id in keys ==> id in ObjectIds(objects) && id in DecisionIds(decisions)
  {
    if keys == [] then Ok(map[])
    else
      var id := keys[|keys| - 1];
      match FreshRows(keys[..|keys| - 1], objects, decisions, reviewer, reviewedAt)
      case Err(e) => Err(e)
      case Ok(earlier) =>
        match DecideObject(objects[LastOf(ObjectIds(objects), id)], decisions[LastOf(DecisionIds(decisions), id)], reviewer, reviewedAt)
        case Err(e) => Err(e)
        case Ok(row) => Ok(earlier[id := row])
  }

  /** An earlier approval survives only if its object is settled, still on the timeline and unchanged. */
  predicate Survives(a: Approval, queueIds: seq<string>, timeline: seq<TimelineRow>) {
    && a.contentId !in queueIds && a.contentId in TimelineIds(timeline)
    && Upper(a.decision) in {APPROVE, EDIT, REJECT_UI, PRESERVE_SOURCE} && Strip(a.reviewer) != "" && Strip(a.reviewedAt) != ""
    && a.reviewHash == timeline[LastOf(TimelineIds(timeline), a.contentId)].reviewHash
  }

  function Preserved(approvals: seq<Approval>, queueIds: seq<string>, timeline: seq<TimelineRow>): map<string, Approval> {
    if approvals == [] then map[]
    else
      var last := approvals[|approvals| - 1];
      var earlier := Preserved(approvals[..|approvals| - 1], queueIds, timeline);
      if Survives(last, queueIds, timeline) then earlier[last.contentId := last] else earlier
  }

  function PreservedFrom(existing: Option<ApprovalFile>, queue: ReviewQueue, timeline: seq<TimelineRow>): map<string, Approval> {
    if existing.Some? && timeline != [] && existing.value.phase1Ref == queue.phase1Ref
    then Preserved(existing.value.approvals, ObjectIds(queue.objects), timeline) else map[]
  }

  function Select(ids: seq<string>, rows: map<string, Approval>): seq<Approval> {
    if ids == [] then []
    else
      var id := ids[|ids| - 1];
      Select(ids[..|ids| - 1], rows) + (if id in rows then [rows[id]] else [])
  }

  /** The order of the written approvals: the timeline's when there is one, else the queue's. */
  function OrderedIds(queue: ReviewQueue, timeline: seq<TimelineRow>): seq<string> {
    Keys(if timeline != [] then TimelineIds(timeline) else ObjectIds(queue.objects))
  }

  predicate CoversQueue(queue: ReviewQueue, decisions: seq<Decision>) {
    queue.objects != [] && Elements(ObjectIds(queue.objects)) == Elements(DecisionIds(decisions))
  }

  lemma CoveredIds(queue: ReviewQueue, decisions: seq<Decision>)
    requires CoversQueue(queue, decisions)
    ensures forall id :: id in Keys(ObjectIds(queue.objects)) ==> id in ObjectIds(queue.objects) && id in DecisionIds(decisions)
  {
    KeysAreDistinct(ObjectIds(queue.objects));
    forall id | id in Keys(ObjectIds(queue.objects))
      ensures id in DecisionIds(decisions)
    {
      assert id in Elements(ObjectIds(queue.objects));
    }
  }

  function EditedIds(rows: map<string, Approval>): set<string> { set id | id in rows && rows[id].decision == EDIT }

  lemma EditedAtMost(rows: map<string, Approval>)
    ensures |EditedIds(rows)| <= |rows|
  {
    assert EditedIds(rows) <= rows.Keys;
    SubsetIsSmaller(EditedIds(rows), rows.Keys);
  }

  lemma SubsetIsSmaller(a: set<string>, b: set<string>)
    requires a <= b
    ensures |a| <= |b|
    ensures |a| == |b| <==> a == b
  {
    assert |b| == |a| + |b - a| by { assert b == a + (b - a); }
  }

  function RecordingOf(phase1Ref: string, ids: seq<string>, preserved: map<string, Approval>, decided: map<string, Approval>): Recording {
    EditedAtMost(decided);
    var approvals := Select(ids, preserved + decided);
    Recording(ApprovalFile(phase1Ref, approvals),
              ReviewCounts(|approvals|, |EditedIds(decided)|, |decided| - |EditedIds(decided)|, |preserved|))
  }

  function Recorded(queue: ReviewQueue, given: DecisionSet, existing: Option<ApprovalFile>, timeline: seq<TimelineRow>)
    : Result<Recording, ReviewError>
  {
    var body := given.body;
    if DigestLength(given.selfSha) != 64 || given.selfSha != OfDecisions(body) then Err(InvalidSelfHash)
    else if body.queueSha != OfQueueFile(queue) then Err(StaleQueue)
    else if Strip(body.reviewer) == "" || Strip(body.reviewedAt) == "" then Err(MissingReviewer)
    else if !CoversQueue(queue, body.decisions) then Err(NotCovering)
    else
      CoveredIds(queue, body.decisions);
      match FreshRows(Keys(ObjectIds(queue.objects)), queue.objects, body.decisions, Strip(body.reviewer), Strip(body.reviewedAt))
      case Err(e) => Err(e)
      case Ok(decided) =>
        Ok(RecordingOf(queue.phase1Ref, OrderedIds(queue, timeline), PreservedFrom(existing, queue, timeline), decided))
  }

  method ApplyOperatorReview(queue: ReviewQueue, given: DecisionSet, existing: Option<ApprovalFile>, timeline: seq<TimelineRow>)
    returns (r: Result<Recording, ReviewError>)
    ensures r == Recorded(queue, given, existing, timeline)
  {
    hide Strip, FreshRows, Preserved, Select, Keys, CoversQueue, ObjectIds, TimelineIds, DecisionIds;
    var body := given.body;
    if DigestLength(given.selfSha) != 64 || given.selfSha != OfDecisions(body) {
      return Err(InvalidSelfHash);
    }
    if body.queueSha != OfQueueFile(queue) {
      return Err(StaleQueue);
    }
    if Strip(body.reviewer) == "" || Strip(body.reviewedAt) == "" {
      return Err(MissingReviewer);
    }
    if !CoversQueue(queue, body.decisions) {
      return Err(NotCovering);
    }
    CoveredIds(queue, body.decisions);
    var preserved: map<string, Approval> := map[];
    if existing.Some? && timeline != [] && existing.value.phase1Ref == queue.phase1Ref {
      preserved := CollectPreserved(existing.value.approvals, ObjectIds(queue.objects), timeline);
    }
    KeysAreDistinct(ObjectIds(queue.objects));
    var decided, edited := DecideAll(Keys(ObjectIds(queue.objects)), queue.objects, body.decisions,
                                     Strip(body.reviewer), Strip(body.reviewedAt));
    if decided.Err? {
      return Err(decided.error);
    }
    EditedAtMost(decided.value);
    var approvals := Select(OrderedIds(queue, timeline), preserved + decided.value);
    r := Ok(Recording(ApprovalFile(queue.phase1Ref, approvals),
                      ReviewCounts(|approvals|, edited, |decided.value| - edited, |preserved|)));
  }

  method CollectPreserved(approvals: seq<Approval>, queueIds: seq<string>, timeline: seq<TimelineRow>) returns (rows: map<string, Approval>)
    ensures rows == Preserved(approvals, queueIds, timeline)
  {
    hide Survives;
    rows := map[];
    var i := 0;
    while i < |approvals|
      invariant 0 <= i <= |approvals|
      invariant rows == Preserved(approvals[..i], queueIds, timeline)
    {
      assert approvals[..i + 1][..i] == approvals[..i];
      if Survives(approvals[i], queueIds, timeline) {
        rows := rows[approvals[i].contentId := approvals[i]];
      }
      i := i + 1;
    }
    assert approvals[..i] == approvals;
  }

  method DecideAll(keys: seq<string>, objects: seq<QueueObject>, decisions: seq<Decision>, reviewer: string, reviewedAt: string)
    returns (r: Result<map<string, Approval>, ReviewError>, edited: nat)
    requires Distinct(keys) && forall id :: id in keys ==> id in ObjectIds(objects) && id in DecisionIds(decisions)
    ensures r == FreshRows(keys, objects, decisions, reviewer, reviewedAt)
    ensures r.Ok? ==> edited == |EditedIds(r.value)|
  {
    hide DecideObject, ObjectIds, DecisionIds, EditedIds;
    var rows: map<string, Approval> := map[];
    NothingEdited();
    edited := 0;
    var i := 0;
    while i < |keys|
      invariant 0 <= i <= |keys|
      invariant FreshRows(keys[..i], objects, decisions, reviewer, reviewedAt) == Ok(rows)
      invariant forall id :: id in rows <==> id in keys[..i]
      invariant edited == |EditedIds(rows)|
    {
      assert keys[..i + 1][..i] == keys[..i];
      var row := DecideObject(objects[LastOf(ObjectIds(objects), keys[i])], decisions[LastOf(DecisionIds(decisions), keys[i])],
                              reviewer, reviewedAt);
      if row.Err? {
        FreshFails(keys, objects, decisions, reviewer, reviewedAt, i + 1);
        return Err(row.error), edited;
      }
      EditedStep(rows, keys[i], row.value);
      edited := edited + if row.value.decision == EDIT then 1 else 0;
      rows := rows[keys[i] := row.value];
      i := i + 1;
    }
    assert keys[..i] == keys;
    r := Ok(rows);
  }

  lemma NothingEdited()
    ensures |EditedIds(map[])| == 0
  {
  }

  lemma EditedStep(rows: map<string, Approval>, id: string, row: Approval)
    requires id !in rows
    ensures |EditedIds(rows[id := row])| == |EditedIds(rows)| + if row.decision == EDIT then 1 else 0
  {
    assert EditedIds(rows[id := row]) == EditedIds(rows) + if row.decision == EDIT then {id} else {};
  }

  lemma {:induction false} FreshFails(keys: seq<string>, objects: seq<QueueObject>, decisions: seq<Decision>, reviewer: string,
                                      reviewedAt: string, n: nat)
    requires forall id :: id in keys ==> id in ObjectIds(objects) && id in DecisionIds(decisions)
    requires n <= |keys| && FreshRows(keys[..n], objects, decisions, reviewer, reviewedAt).Err?
    ensures FreshRows(keys, objects, decisions, reviewer, reviewedAt) == FreshRows(keys[..n], objects, decisions, reviewer, reviewedAt)
  {
    hide DecideObject, ObjectIds, DecisionIds;
    if n < |keys| {
      assert keys[..|keys| - 1][..n] == keys[..n];
      FreshFails(keys[..|keys| - 1], objects, decisions, reviewer, reviewedAt, n);
    } else {
      assert keys[..n] == keys;
    }
  }

  // ----- What is recorded -----

  lemma {:induction false} SelectHolds(ids: seq<string>, rows: map<string, Approval>, a: Approval)
    ensures a in Select(ids, rows) <==> exists id :: id in ids && id in rows && rows[id] == a
  {
    if ids != [] {
      var front, last := ids[..|ids| - 1], ids[|ids| - 1];
      SelectHolds(front, rows, a);
      assert forall id :: id in ids <==> id in front || id == last by {
        assert ids == front + [last];
      }
    }
  }

  lemma {:induction false} FreshRowsAt(keys: seq<string>, objects: seq<QueueObject>, decisions: seq<Decision>, reviewer: string,
                                       reviewedAt: string, id: string)
    requires forall key :: key in keys ==> key in ObjectIds(objects) && key in DecisionIds(decisions)
    requires FreshRows(keys, objects, decisions, reviewer, reviewedAt).Ok?
    ensures var rows := FreshRows(keys, objects, decisions, reviewer, reviewedAt).value;
      && (id in rows <==> id in keys)
      && (id in rows ==> DecideObject(objects[LastOf(ObjectIds(objects), id)], decisions[LastOf(DecisionIds(decisions), id)],
                                      reviewer, reviewedAt) == Ok(rows[id]))
  {
    hide DecideObject, ObjectIds, DecisionIds;
    if keys != [] {
      var front, last := keys[..|keys| - 1], keys[|keys| - 1];
      assert keys == front + [last];
      FreshRowsAt(front, objects, decisions, reviewer, reviewedAt, id);
    }
  }

  lemma {:induction false} PreservedAt(approvals: seq<Approval>, queueIds: seq<string>, timeline: seq<TimelineRow>, id: string)
    ensures var rows := Preserved(approvals, queueIds, timeline);
      id in rows ==> rows[id] in approvals && rows[id].contentId == id && Survives(rows[id], queueIds, timeline)
  {
    hide Survives;
    if approvals != [] {
      var front, last := approvals[..|approvals| - 1], approvals[|approvals| - 1];
      assert approvals == front + [last];
      PreservedAt(front, queueIds, timeline, id);
    }
  }

  /** The fresh decision of a queue object. */
  function FreshOf(queue: ReviewQueue, given: DecisionSet, id: string): Result<Approval, ReviewError>
    requires id in ObjectIds(queue.objects) && id in DecisionIds(given.body.decisions)
  {
    DecideObject(queue.objects[LastOf(ObjectIds(queue.objects), id)],
                 given.body.decisions[LastOf(DecisionIds(given.body.decisions), id)],
                 Strip(given.body.reviewer), Strip(given.body.reviewedAt))
  }

  lemma RecordedApprovals(queue: ReviewQueue, given: DecisionSet, existing: Option<ApprovalFile>, timeline: seq<TimelineRow>,
                          decided: map<string, Approval>)
    requires Recorded(queue, given, existing, timeline).Ok?
    requires forall id :: id in Keys(ObjectIds(queue.objects)) ==> id in ObjectIds(queue.objects) && id in DecisionIds(given.body.decisions)
    requires FreshRows(Keys(ObjectIds(queue.objects)), queue.objects, given.body.decisions,
                       Strip(given.body.reviewer), Strip(given.body.reviewedAt)) == Ok(decided)
    ensures Recorded(queue, given, existing, timeline).value.file.approvals
         == Select(OrderedIds(queue, timeline), PreservedFrom(existing, queue, timeline) + decided)
  {
    hide FreshRows, PreservedFrom, Select, Strip, EditedIds;
  }

  /**
   * The recorded approval of a queue object is its fresh decision, never an earlier one; but it is recorded at all only
   * when there is no timeline or the timeline lists the object. Otherwise the decision is silently dropped.
   */
  lemma WhenDecisionIsRecorded(queue: ReviewQueue, given: DecisionSet, existing: Option<ApprovalFile>, timeline: seq<TimelineRow>, id: string)
    requires Recorded(queue, given, existing, timeline).Ok? && id in ObjectIds(queue.objects)
    ensures id in DecisionIds(given.body.decisions)
    ensures var approvals := Recorded(queue, given, existing, timeline).value.file.approvals;
      && FreshOf(queue, given, id).Ok? && FreshOf(queue, given, id).value.contentId == id
      && (FreshOf(queue, given, id).value in approvals <==> timeline == [] || id in TimelineIds(timeline))
      && (forall a :: a in approvals && a.contentId == id ==> a == FreshOf(queue, given, id).value)
  {
    var queueIds := ObjectIds(queue.objects);
    CoveredIds(queue, given.body.decisions);
    KeysAreDistinct(queueIds);
    var decided := FreshRows(Keys(queueIds), queue.objects, given.body.decisions, Strip(given.body.reviewer), Strip(given.body.reviewedAt));
    FreshRowsAt(Keys(queueIds), queue.objects, given.body.decisions, Strip(given.body.reviewer), Strip(given.body.reviewedAt), id);
    var preserved := PreservedFrom(existing, queue, timeline);
    var rows, ordered := preserved + decided.value, OrderedIds(queue, timeline);
    RecordedApprovals(queue, given, existing, timeline, decided.value);
    KeysAreDistinct(if timeline != [] then TimelineIds(timeline) else queueIds);
    hide Recorded, FreshRows, PreservedFrom, Select, RecordingOf, Strip, DecideObject;
    assert rows[id] == FreshOf(queue, given, id).value;
    forall key | key in rows
      ensures rows[key].contentId == key
    {
      RowKeepsKey(queue, given, existing, timeline, rows, key);
    }
    SelectedUnder(ordered, rows, id);
  }

  /** When every row is stored under its own id, a selection holds at most that row of an id. */
  lemma SelectedUnder(ids: seq<string>, rows: map<string, Approval>, id: string)
    requires id in rows && forall key :: key in rows ==> rows[key].contentId == key
    ensures rows[id] in Select(ids, rows) <==> id in ids
    ensures forall a :: a in Select(ids, rows) && a.contentId == id ==> a == rows[id]
  {
    SelectHolds(ids, rows, rows[id]);
    forall a | a in Select(ids, rows) && a.contentId == id
      ensures a == rows[id]
    {
      SelectHolds(ids, rows, a);
    }
  }

  lemma RowKeepsKey(queue: ReviewQueue, given: DecisionSet, existing: Option<ApprovalFile>, timeline: seq<TimelineRow>,
                    rows: map<string, Approval>, key: string)
    requires CoversQueue(queue, given.body.decisions) && key in rows
    requires forall id :: id in Keys(ObjectIds(queue.objects)) ==> id in ObjectIds(queue.objects) && id in DecisionIds(given.body.decisions)
    requires var decided := FreshRows(Keys(ObjectIds(queue.objects)), queue.objects, given.body.decisions,
                                      Strip(given.body.reviewer), Strip(given.body.reviewedAt));
      decided.Ok? && rows == PreservedFrom(existing, queue, timeline) + decided.value
    ensures rows[key].contentId == key
  {
    hide Strip, Survives, CoversQueue;
    FreshRowsAt(Keys(ObjectIds(queue.objects)), queue.objects, given.body.decisions,
                Strip(given.body.reviewer), Strip(given.body.reviewedAt), key);
    if key in Keys(ObjectIds(queue.objects)) {
    } else if existing.Some? {
      PreservedAt(existing.value.approvals, ObjectIds(queue.objects), timeline, key);
    }
  }

  /** The row of the timeline an id stands for: the last one. */
  ghost predicate CurrentRow(timeline: seq<TimelineRow>, id: string, k: int) {
    0 <= k < |timeline| && timeline[k].contentId == id && forall j :: k < j < |timeline| ==> timeline[j].contentId != id
  }

  /** An earlier approval still stands: not decided anew, on the timeline with the same review hash, and complete. */
  ghost predicate StillStands(a: Approval, queueIds: seq<string>, timeline: seq<TimelineRow>) {
    && a.contentId !in queueIds
    && (exists k :: CurrentRow(timeline, a.contentId, k) && timeline[k].reviewHash == a.reviewHash)
    && (Upper(a.decision) == APPROVE || Upper(a.decision) == EDIT || Upper(a.decision) == REJECT_UI || Upper(a.decision) == PRESERVE_SOURCE)
    && Strip(a.reviewer) != "" && Strip(a.reviewedAt) != ""
  }

  /** The last approval of its id that still stands. */
  ghost predicate LastStanding(approvals: seq<Approval>, queueIds: seq<string>, timeline: seq<TimelineRow>, i: int) {
    && 0 <= i < |approvals| && StillStands(approvals[i], queueIds, timeline)
    && forall j :: i < j < |approvals| && approvals[j].contentId == approvals[i].contentId ==> !StillStands(approvals[j], queueIds, timeline)
  }

  lemma SurvivorStands(a: Approval, queueIds: seq<string>, timeline: seq<TimelineRow>)
    ensures Survives(a, queueIds, timeline) <==> StillStands(a, queueIds, timeline)
  {
    hide Upper, Strip, LastOf;
    var ids := TimelineIds(timeline);
    assert forall k :: 0 <= k < |timeline| ==> ids[k] == timeline[k].contentId;
    if a.contentId in ids {
      var k := LastOf(ids, a.contentId);
      assert CurrentRow(timeline, a.contentId, k);
      assert forall other :: CurrentRow(timeline, a.contentId, other) ==> other == k;
    } else {
      assert forall k :: !CurrentRow(timeline, a.contentId, k);
    }
  }

  lemma {:induction false} PreservedIs(approvals: seq<Approval>, queueIds: seq<string>, timeline: seq<TimelineRow>, id: string)
    ensures var rows := Preserved(approvals, queueIds, timeline);
      && (id in rows ==> exists i :: LastStanding(approvals, queueIds, timeline, i) && approvals[i].contentId == id && rows[id] == approvals[i])
      && (id !in rows ==> forall i :: 0 <= i < |approvals| && approvals[i].contentId == id ==> !StillStands(approvals[i], queueIds, timeline))
  {
    hide Survives, StillStands;
    if approvals != [] {
      var n := |approvals| - 1;
      var front, last := approvals[..n], approvals[n];
      PreservedIs(front, queueIds, timeline, id);
      SurvivorStands(last, queueIds, timeline);
      if last.contentId == id && Survives(last, queueIds, timeline) {
        assert LastStanding(approvals, queueIds, timeline, n);
      } else if id in Preserved(front, queueIds, timeline) {
        var i :| LastStanding(front, queueIds, timeline, i) && front[i].contentId == id && Preserved(front, queueIds, timeline)[id] == front[i];
        assert LastStanding(approvals, queueIds, timeline, i);
      }
    }
  }

  lemma OneLastStanding(approvals: seq<Approval>, queueIds: seq<string>, timeline: seq<TimelineRow>, i: int, j: int)
    requires LastStanding(approvals, queueIds, timeline, i) && LastStanding(approvals, queueIds, timeline, j)
    requires approvals[i].contentId == approvals[j].contentId
    ensures i == j
  {
    hide StillStands;
  }

  /**
   * An approval of an object that is not decided anew is written exactly when there is a timeline, the earlier approvals belong to
   * the same Phase 1 run, and it is the last one of its id that still stands.
   */
  lemma WhenEarlierApprovalIsKept(queue: ReviewQueue, given: DecisionSet, existing: Option<ApprovalFile>, timeline: seq<TimelineRow>, a: Approval)
    requires Recorded(queue, given, existing, timeline).Ok? && a.contentId !in ObjectIds(queue.objects)
    ensures a in Recorded(queue, given, existing, timeline).value.file.approvals <==>
      && existing.Some? && timeline != [] && existing.value.phase1Ref == queue.phase1Ref
      && exists i :: LastStanding(existing.value.approvals, ObjectIds(queue.objects), timeline, i) && existing.value.approvals[i] == a
  {
    var queueIds, body := ObjectIds(queue.objects), given.body;
    CoveredIds(queue, body.decisions);
    KeysAreDistinct(queueIds);
    KeysAreDistinct(if timeline != [] then TimelineIds(timeline) else queueIds);
    var decided := FreshRows(Keys(queueIds), queue.objects, body.decisions, Strip(body.reviewer), Strip(body.reviewedAt)).value;
    FreshRowsAt(Keys(queueIds), queue.objects, body.decisions, Strip(body.reviewer), Strip(body.reviewedAt), a.contentId);
    var preserved := PreservedFrom(existing, queue, timeline);
    var rows, ids := preserved + decided, OrderedIds(queue, timeline);
    RecordedApprovals(queue, given, existing, timeline, decided);
    hide Recorded, FreshRows, Strip, Select, DecideObject, Keys, PreservedFrom, CoversQueue, LastStanding, StillStands, ObjectIds,
         TimelineIds, DecisionIds;
    forall key | key in rows
      ensures rows[key].contentId == key
    {
      RowKeepsKey(queue, given, existing, timeline, rows, key);
    }
    SelectHolds(ids, rows, a);
    PreservedFromIs(existing, queue, timeline, a.contentId);
    KeptWhenStanding(existing, queue, timeline, a);
  }

  lemma PreservedFromIs(existing: Option<ApprovalFile>, queue: ReviewQueue, timeline: seq<TimelineRow>, id: string)
    ensures id in PreservedFrom(existing, queue, timeline) ==> timeline != [] && id in TimelineIds(timeline)
  {
    if id in PreservedFrom(existing, queue, timeline) {
      PreservedIsListed(existing, queue, timeline, id);
    }
  }

  lemma KeptWhenStanding(existing: Option<ApprovalFile>, queue: ReviewQueue, timeline: seq<TimelineRow>, a: Approval)
    ensures var preserved := PreservedFrom(existing, queue, timeline);
      (a.contentId in preserved && preserved[a.contentId] == a) <==>
      && existing.Some? && timeline != [] && existing.value.phase1Ref == queue.phase1Ref
      && exists i :: LastStanding(existing.value.approvals, ObjectIds(queue.objects), timeline, i) && existing.value.approvals[i] == a
  {
    if existing.Some? && timeline != [] && existing.value.phase1Ref == queue.phase1Ref {
      var approvals, queueIds := existing.value.approvals, ObjectIds(queue.objects);
      PreservedIs(approvals, queueIds, timeline, a.contentId);
      hide Preserved, StillStands;
      if i :| LastStanding(approvals, queueIds, timeline, i) && approvals[i] == a {
        if a.contentId in Preserved(approvals, queueIds, timeline) {
          var j :| LastStanding(approvals, queueIds, timeline, j) && approvals[j].contentId == a.contentId
                   && Preserved(approvals, queueIds, timeline)[a.contentId] == approvals[j];
          OneLastStanding(approvals, queueIds, timeline, i, j);
        }
      }
    }
  }

  // ----- The end of the chain -----

  lemma {:induction false} AllDecidable(keys: seq<string>, objects: seq<QueueObject>, decisions: seq<Decision>, reviewer: string, reviewedAt: string)
    requires forall id :: id in keys ==> id in ObjectIds(objects) && id in DecisionIds(decisions)
    requires forall id :: id in keys ==>
      DecideObject(objects[LastOf(ObjectIds(objects), id)], decisions[LastOf(DecisionIds(decisions), id)], reviewer, reviewedAt).Ok?
    ensures FreshRows(keys, objects, decisions, reviewer, reviewedAt).Ok?
  {
    hide DecideObject, ObjectIds, DecisionIds;
    if keys != [] {
      AllDecidable(keys[..|keys| - 1], objects, decisions, reviewer, reviewedAt);
    }
  }

  /** The approval a proposal row stands for. */
  function ApprovalOf(o: QueueObject, row: ProposalRow, reviewer: string, reviewedAt: string): Approval {
    Approval(o.contentId, row.decision, o.reviewHash, row.suggested, reviewer, reviewedAt)
  }

  lemma ResolvedDraftIsDecidable(o: QueueObject, row: ProposalRow, reviewer: string, reviewedAt: string)
    requires DraftOf(o, row) && Resolved(row)
    ensures DecideObject(o, Decision(row.contentId, row.decision, row.suggested), reviewer, reviewedAt)
         == Ok(ApprovalOf(o, row, reviewer, reviewedAt))
  {
  }

  lemma {:induction false} DecisionsAreRows(rows: seq<ProposalRow>)
    ensures |DecisionsOf(rows)| == |rows|
    ensures forall i :: 0 <= i < |rows| ==> DecisionsOf(rows)[i] == Decision(rows[i].contentId, rows[i].decision, rows[i].suggested)
  {
    if rows != [] {
      DecisionsAreRows(rows[..|rows| - 1]);
    }
  }

  /** With clean ids the queue, the proposal and the decisions list the same ids in the same order. */
  lemma SameIds(queue: ReviewQueue, rows: seq<ProposalRow>)
    requires Pairs(queue.objects, rows) && CleanIds(queue)
    ensures DecisionIds(DecisionsOf(rows)) == RowIds(rows) == ObjectIds(queue.objects)
  {
    DecisionsAreRows(rows);
    RowIdsAreTrimmedForms(queue.objects, rows);
    WhenIdsAreClean(queue);
    hide Pairs, CleanIds, TrimmedForms, AllTrimmed;
    TrimmedFormsOfTrimmed(RowIds(rows), ObjectIds(queue.objects));
    assert forall i :: 0 <= i < |rows| ==> DecisionIds(DecisionsOf(rows))[i] == RowIds(rows)[i];
  }

  lemma DecidedAt(queue: ReviewQueue, rows: seq<ProposalRow>, reviewer: string, reviewedAt: string, i: nat)
    requires Pairs(queue.objects, rows) && CleanIds(queue) && AllResolved(rows) && i < |queue.objects|
    ensures |rows| == |queue.objects|
    ensures queue.objects[i].contentId in ObjectIds(queue.objects)
    ensures queue.objects[i].contentId in DecisionIds(DecisionsOf(rows))
    ensures var id := queue.objects[i].contentId;
      DecideObject(queue.objects[LastOf(ObjectIds(queue.objects), id)],
                   DecisionsOf(rows)[LastOf(DecisionIds(DecisionsOf(rows)), id)], reviewer, reviewedAt)
      == Ok(ApprovalOf(queue.objects[i], rows[i], reviewer, reviewedAt))
  {
    SameIds(queue, rows);
    DecisionsAreRows(rows);
    var ids := ObjectIds(queue.objects);
    assert ids[i] == queue.objects[i].contentId;
    LastOfDistinct(ids, i);
    hide DecideObject, DecisionsOf, DecisionIds, ObjectIds, RowIds, DraftOf, Resolved, CleanIds, LastOf;
    ResolvedDraftIsDecidable(queue.objects[i], rows[i], reviewer, reviewedAt);
  }

  lemma AllFresh(queue: ReviewQueue, rows: seq<ProposalRow>, reviewer: string, reviewedAt: string)
    requires Pairs(queue.objects, rows) && CleanIds(queue) && AllResolved(rows)
    ensures forall id :: id in Keys(ObjectIds(queue.objects)) ==> id in ObjectIds(queue.objects) && id in DecisionIds(DecisionsOf(rows))
    ensures FreshRows(Keys(ObjectIds(queue.objects)), queue.objects, DecisionsOf(rows), reviewer, reviewedAt).Ok?
  {
    KeysAreDistinct(ObjectIds(queue.objects));
    IdsAreListed(queue.objects);
    hide *;
    forall id | id in Keys(ObjectIds(queue.objects))
      ensures id in ObjectIds(queue.objects) && id in DecisionIds(DecisionsOf(rows))
      ensures DecideObject(queue.objects[LastOf(ObjectIds(queue.objects), id)],
                           DecisionsOf(rows)[LastOf(DecisionIds(DecisionsOf(rows)), id)], reviewer, reviewedAt).Ok?
    {
      var i :| 0 <= i < |queue.objects| && queue.objects[i].contentId == id;
      DecidedAt(queue, rows, reviewer, reviewedAt, i);
    }
    AllDecidable(Keys(ObjectIds(queue.objects)), queue.objects, DecisionsOf(rows), reviewer, reviewedAt);
  }

  lemma IdsAreListed(objects: seq<QueueObject>)
    ensures forall id :: id in ObjectIds(objects) ==> exists i :: 0 <= i < |objects| && objects[i].contentId == id
  {
    assert forall i :: 0 <= i < |objects| ==> ObjectIds(objects)[i] == objects[i].contentId;
  }

  /** How one row of a proposal is recorded: its own approval and no other, unless a timeline leaves the object out. */
  ghost predicate RecordsRow(o: QueueObject, row: ProposalRow, timeline: seq<TimelineRow>, approvals: seq<Approval>, reviewer: string,
                             reviewedAt: string)
  {
    var mine := ApprovalOf(o, row, reviewer, reviewedAt);
    && (mine in approvals <==> timeline == [] || o.contentId in TimelineIds(timeline))
    && (forall a :: a in approvals && a.contentId == o.contentId ==> a == mine)
  }

  ghost predicate Records(objects: seq<QueueObject>, rows: seq<ProposalRow>, timeline: seq<TimelineRow>, approvals: seq<Approval>,
                          reviewer: string, reviewedAt: string)
  {
    |rows| == |objects|
    && forall i :: 0 <= i < |objects| ==> RecordsRow(objects[i], rows[i], timeline, approvals, reviewer, reviewedAt)
  }

  /** Every row of the proposal is among the approvals. */
  ghost predicate HoldsAll(objects: seq<QueueObject>, rows: seq<ProposalRow>, approvals: seq<Approval>, reviewer: string, reviewedAt: string) {
    |rows| == |objects| && forall i :: 0 <= i < |objects| ==> ApprovalOf(objects[i], rows[i], reviewer, reviewedAt) in approvals
  }

  predicate ListsAll(objects: seq<QueueObject>, timeline: seq<TimelineRow>) {
    timeline == [] || forall i :: 0 <= i < |objects| ==> objects[i].contentId in TimelineIds(timeline)
  }

  /** Nothing is dropped exactly when there is no timeline or it lists every object of the queue. */
  lemma WhenAllAreHeld(objects: seq<QueueObject>, rows: seq<ProposalRow>, timeline: seq<TimelineRow>, approvals: seq<Approval>,
                       reviewer: string, reviewedAt: string)
    requires Records(objects, rows, timeline, approvals, reviewer, reviewedAt)
    ensures HoldsAll(objects, rows, approvals, reviewer, reviewedAt) <==> ListsAll(objects, timeline)
  {
    forall i | 0 <= i < |objects|
      ensures ApprovalOf(objects[i], rows[i], reviewer, reviewedAt) in approvals
        <==> timeline == [] || objects[i].contentId in TimelineIds(timeline)
    {
      assert RecordsRow(objects[i], rows[i], timeline, approvals, reviewer, reviewedAt);
    }
  }

  /**
   * The decisions materialized from a built proposal are accepted exactly when the queue is not empty: an empty queue passes
   * the build, the validation and the materialization, and is refused only at the last step. Accepted, each row of the
   * proposal is recorded as it stands, except for objects that a timeline leaves out.
   */
  lemma WhenBuiltDecisionsAreRecorded(queue: ReviewQueue, p: Proposal, approvedSha: Hash, reviewer: string, reviewedAt: string,
                                      existing: Option<ApprovalFile>, timeline: seq<TimelineRow>)
    requires BuiltFor(queue, p) && Materialized(queue, p, approvedSha, reviewer, reviewedAt).Ok?
    ensures var r := Recorded(queue, Materialized(queue, p, approvedSha, reviewer, reviewedAt).value, existing, timeline);
      && (r.Ok? <==> queue.objects != [])
      && (r.Ok? ==> Records(queue.objects, p.body.rows, timeline, r.value.file.approvals, Strip(reviewer), Strip(reviewedAt)))
  {
    var given := Materialized(queue, p, approvedSha, reviewer, reviewedAt).value;
    WhenBuiltDecisionsAreAccepted(queue, p, approvedSha, reviewer, reviewedAt, existing, timeline);
    MaterializedBody(queue, p, approvedSha, reviewer, reviewedAt);
    hide *;
    PairsMatch(queue.objects, p.body.rows);
    var r := Recorded(queue, given, existing, timeline);
    if r.Ok? {
      forall i | 0 <= i < |queue.objects|
        ensures RecordsRow(queue.objects[i], p.body.rows[i], timeline, r.value.file.approvals, Strip(reviewer), Strip(reviewedAt))
      {
        RowIsRecorded(queue, given, p.body.rows, existing, timeline, i);
      }
      RecordsAll(queue.objects, p.body.rows, timeline, r.value.file.approvals, Strip(reviewer), Strip(reviewedAt));
    }
  }

  lemma RecordsAll(objects: seq<QueueObject>, rows: seq<ProposalRow>, timeline: seq<TimelineRow>, approvals: seq<Approval>,
                   reviewer: string, reviewedAt: string)
    requires |rows| == |objects|
    requires forall i :: 0 <= i < |objects| ==> RecordsRow(objects[i], rows[i], timeline, approvals, reviewer, reviewedAt)
    ensures Records(objects, rows, timeline, approvals, reviewer, reviewedAt)
  {
  }

  /** What a materialized decision set is made of. */
  lemma MaterializedBody(queue: ReviewQueue, p: Proposal, approvedSha: Hash, reviewer: string, reviewedAt: string)
    requires BuiltFor(queue, p) && Materialized(queue, p, approvedSha, reviewer, reviewedAt).Ok?
    ensures var body := Materialized(queue, p, approvedSha, reviewer, reviewedAt).value.body;
      && body.decisions == DecisionsOf(p.body.rows)
      && Strip(body.reviewer) == Strip(reviewer) && Strip(body.reviewedAt) == Strip(reviewedAt)
    ensures Pairs(queue.objects, p.body.rows) && CleanIds(queue) && AllResolved(p.body.rows)
  {
    WhenBuiltProposalMaterializes(queue, p, approvedSha, reviewer, reviewedAt);
    StripIsIdempotent(reviewer);
    StripIsIdempotent(reviewedAt);
    hide Materialized, Strip, Pairs, CleanIds, AllResolved, DecisionsOf, Stripped, CountsOf;
  }

  lemma WhenBuiltDecisionsAreAccepted(queue: ReviewQueue, p: Proposal, approvedSha: Hash, reviewer: string, reviewedAt: string,
                                      existing: Option<ApprovalFile>, timeline: seq<TimelineRow>)
    requires BuiltFor(queue, p) && Materialized(queue, p, approvedSha, reviewer, reviewedAt).Ok?
    ensures Recorded(queue, Materialized(queue, p, approvedSha, reviewer, reviewedAt).value, existing, timeline).Ok? <==> queue.objects != []
  {
    var given := Materialized(queue, p, approvedSha, reviewer, reviewedAt).value;
    WhenBuiltProposalMaterializes(queue, p, approvedSha, reviewer, reviewedAt);
    StripIsIdempotent(reviewer);
    StripIsIdempotent(reviewedAt);
    hide Materialized, Strip, FreshRows, Pairs, CleanIds, AllResolved, DecisionsOf, DecisionIds, ObjectIds, RowIds, Keys, Stripped,
         OrderedIds, Select, PreservedFrom, CountsOf, RecordingOf;
    SameIds(queue, p.body.rows);
    if queue.objects != [] {
      AllFresh(queue, p.body.rows, Strip(given.body.reviewer), Strip(given.body.reviewedAt));
    }
  }

  lemma PairsMatch(objects: seq<QueueObject>, rows: seq<ProposalRow>)
    requires Pairs(objects, rows)
    ensures |rows| == |objects|
  {
  }

  lemma RowIsRecorded(queue: ReviewQueue, given: DecisionSet, rows: seq<ProposalRow>, existing: Option<ApprovalFile>,
                      timeline: seq<TimelineRow>, i: nat)
    requires Pairs(queue.objects, rows) && CleanIds(queue) && AllResolved(rows) && i < |queue.objects| == |rows|
    requires given.body.decisions == DecisionsOf(rows) && Recorded(queue, given, existing, timeline).Ok?
    ensures RecordsRow(queue.objects[i], rows[i], timeline, Recorded(queue, given, existing, timeline).value.file.approvals,
                       Strip(given.body.reviewer), Strip(given.body.reviewedAt))
  {
    hide Recorded, Strip, DecisionsOf, DecisionIds, ObjectIds, Pairs, CleanIds, AllResolved, DecideObject;
    DecidedAt(queue, rows, Strip(given.body.reviewer), Strip(given.body.reviewedAt), i);
    WhenDecisionIsRecorded(queue, given, existing, timeline, queue.objects[i].contentId);
  }

  /**
   * From the inputs of the build to the approvals: what is recorded for an object is the text and the decision chosen for it
   * from its recommendation, its matching crops and its candidate, and nothing else, unless a timeline leaves the object out.
   */
  lemma ChosenIsRecorded(queue: ReviewQueue, evidence: Evidence, raw: seq<(string, RawRecommendation)>, approvedSha: Hash, reviewer: string,
                         reviewedAt: string, existing: Option<ApprovalFile>, timeline: seq<TimelineRow>, i: nat) returns (a: Approval)
    requires TrimmedAuthority(evidence.authority) && BuiltProposal(queue, evidence, raw).Ok? && i < |queue.objects|
    requires Materialized(queue, BuiltProposal(queue, evidence, raw).value, approvedSha, reviewer, reviewedAt).Ok?
    ensures var o := queue.objects[i];
      var texts, r := MatchedTexts(evidence, o.geometryRefs), RawFor(raw, Strip(o.contentId));
      && a.contentId == o.contentId && a.reviewHash == o.reviewHash
      && TextChosen(o, texts, r, a.text) && DecisionChosen(o, r, a.text, a.decision)
      && a.reviewer == Strip(reviewer) && a.reviewedAt == Strip(reviewedAt)
    ensures var given := Materialized(queue, BuiltProposal(queue, evidence, raw).value, approvedSha, reviewer, reviewedAt).value;
      var recorded := Recorded(queue, given, existing, timeline);
      && recorded.Ok?
      && (a in recorded.value.file.approvals <==> timeline == [] || queue.objects[i].contentId in TimelineIds(timeline))
      && (forall b :: b in recorded.value.file.approvals && b.contentId == queue.objects[i].contentId ==> b == a)
  {
    hide Recorded, BuiltFor, TrimmedAuthority, TextChosen, DecisionChosen, StatusChosen, BuiltProposal, Materialized, MatchedTexts, RawFor,
         Strip, CountsRows;
    var p := BuiltProposal(queue, evidence, raw).value;
    BuildPromises(queue, evidence, raw);
    WhenBuiltDecisionsAreRecorded(queue, p, approvedSha, reviewer, reviewedAt, existing, timeline);
    a := ApprovalOf(queue.objects[i], p.body.rows[i], Strip(reviewer), Strip(reviewedAt));
    var approvals := Recorded(queue, Materialized(queue, p, approvedSha, reviewer, reviewedAt).value, existing, timeline).value.file.approvals;
    assert RecordsRow(queue.objects[i], p.body.rows[i], timeline, approvals, Strip(reviewer), Strip(reviewedAt));
  }

  // ----- Any proposal that materializes -----

  /** The ids of the queue carry no blanks. */
  predicate TrimmedIds(queue: ReviewQueue) { AllTrimmed(ObjectIds(queue.objects)) }

  /** The object a row decides: the last one stored under its id. */
  function ObjectFor(queue: ReviewQueue, row: ProposalRow): QueueObject
    requires row.contentId in ObjectIds(queue.objects)
  {
    queue.objects[LastOf(ObjectIds(queue.objects), row.contentId)]
  }

  ghost predicate Covering(queue: ReviewQueue, rows: seq<ProposalRow>) {
    Distinct(RowIds(rows)) && Elements(RowIds(rows)) == Elements(ObjectIds(queue.objects))
  }

  lemma RowIdIsListed(queue: ReviewQueue, rows: seq<ProposalRow>, i: nat)
    requires Covering(queue, rows) && i < |rows|
    ensures RowIds(rows)[i] == rows[i].contentId && rows[i].contentId in ObjectIds(queue.objects)
  {
    assert RowIds(rows)[i] in Elements(RowIds(rows));
  }

  /** An approving row gives the text of the queue itself, not only that of its own copy of the candidate. */
  ghost predicate ApprovesCandidate(queue: ReviewQueue, row: ProposalRow) {
    && row.contentId in ObjectIds(queue.objects)
    && (Upper(row.decision) == APPROVE ==> Strip(row.suggested) == Strip(ObjectFor(queue, row).candidate))
  }

  ghost predicate ApprovesCandidates(queue: ReviewQueue, rows: seq<ProposalRow>) {
    forall i :: 0 <= i < |rows| ==> ApprovesCandidate(queue, rows[i])
  }

  lemma {:induction false} DecisionsAre(rows: seq<ProposalRow>)
    requires Decisions(rows).Ok?
    ensures |Decisions(rows).value| == |rows|
    ensures forall i :: 0 <= i < |rows| ==> Materializable(rows[i]) && Decisions(rows).value[i] == DecisionOf(rows[i])
  {
    hide Materializable, DecisionOf;
    if rows != [] {
      DecisionsAre(rows[..|rows| - 1]);
    }
  }

  /** What any materialized decision set promises. */
  lemma MaterializedPromises(queue: ReviewQueue, p: Proposal, approvedSha: Hash, reviewer: string, reviewedAt: string)
    requires Materialized(queue, p, approvedSha, reviewer, reviewedAt).Ok?
    ensures var given := Materialized(queue, p, approvedSha, reviewer, reviewedAt).value;
      && given.selfSha == OfDecisions(given.body) && given.body.queueSha == OfQueueFile(queue)
      && Strip(given.body.reviewer) == Strip(reviewer) != "" && Strip(given.body.reviewedAt) == Strip(reviewedAt) != ""
      && Decisions(p.body.rows) == Ok(given.body.decisions)
    ensures Covering(queue, p.body.rows)
  {
    FullKeysAreDistinct(RowIds(p.body.rows));
    StripIsIdempotent(reviewer);
    StripIsIdempotent(reviewedAt);
    hide Decisions, Strip, RowIds, ObjectIds, Keys, FirstFault, Stripped;
  }

  /** The decisions carry the trimmed row ids, which cover the queue exactly when its own ids are trimmed. */
  lemma WhenTrimmedIdsCover(queue: ReviewQueue, rows: seq<ProposalRow>, decisions: seq<Decision>)
    requires Covering(queue, rows) && Decisions(rows) == Ok(decisions)
    ensures Elements(ObjectIds(queue.objects)) == Elements(DecisionIds(decisions)) <==> TrimmedIds(queue)
    ensures TrimmedIds(queue) ==> DecisionIds(decisions) == RowIds(rows)
  {
    DecisionsAre(rows);
    hide Decisions, Materializable;
    var ids, raw, mine := DecisionIds(decisions), RowIds(rows), ObjectIds(queue.objects);
    forall i | 0 <= i < |rows|
      ensures ids[i] == Strip(raw[i]) && Stripped(ids[i]) && (Stripped(raw[i]) ==> ids[i] == raw[i])
    {
      StripIsIdempotent(raw[i]);
    }
    hide Strip, Stripped, DecisionIds, RowIds, ObjectIds, Covering;
    CoveredOnce(queue, rows);
    TrimmedImage(ids, raw, mine);
  }

  lemma CoveredOnce(queue: ReviewQueue, rows: seq<ProposalRow>)
    requires Covering(queue, rows)
    ensures Elements(RowIds(rows)) == Elements(ObjectIds(queue.objects))
  {
  }

  lemma TrimmedImage(ids: seq<string>, raw: seq<string>, mine: seq<string>)
    requires |ids| == |raw| && Elements(raw) == Elements(mine)
    requires forall i :: 0 <= i < |raw| ==> Stripped(ids[i]) && (Stripped(raw[i]) ==> ids[i] == raw[i])
    ensures Elements(mine) == Elements(ids) <==> AllTrimmed(mine)
    ensures AllTrimmed(mine) ==> ids == raw
  {
    hide Stripped;
    if Elements(mine) == Elements(ids) {
      forall i | 0 <= i < |mine|
        ensures Stripped(mine[i])
      {
        assert mine[i] in Elements(mine);
      }
    }
    if AllTrimmed(mine) {
      forall i | 0 <= i < |raw|
        ensures ids[i] == raw[i]
      {
        assert raw[i] in Elements(raw);
      }
    }
  }

  lemma RowIsDecidable(o: QueueObject, row: ProposalRow, reviewer: string, reviewedAt: string)
    requires Materializable(row)
    ensures DecideObject(o, DecisionOf(row), reviewer, reviewedAt).Ok? <==>
      (Upper(row.decision) == APPROVE ==> Strip(row.suggested) == Strip(o.candidate))
    ensures DecideObject(o, DecisionOf(row), reviewer, reviewedAt).Ok? ==>
      DecideObject(o, DecisionOf(row), reviewer, reviewedAt).value
      == Approval(o.contentId, Upper(row.decision), o.reviewHash, Strip(row.suggested), reviewer, reviewedAt)
  {
    StripIsIdempotent(row.suggested);
    UpperIsIdempotent(row.decision);
    hide Strip, Upper;
  }

  /** With trimmed ids the decision about the object of a row is that row's own. */
  lemma DecisionOfRow(queue: ReviewQueue, rows: seq<ProposalRow>, decisions: seq<Decision>, reviewer: string, reviewedAt: string, i: nat)
    requires Covering(queue, rows) && TrimmedIds(queue) && Decisions(rows) == Ok(decisions) && i < |rows|
    ensures rows[i].contentId in ObjectIds(queue.objects) && rows[i].contentId in DecisionIds(decisions) && Materializable(rows[i])
    ensures decisions[LastOf(DecisionIds(decisions), rows[i].contentId)] == DecisionOf(rows[i])
  {
    DecisionsAre(rows);
    WhenTrimmedIdsCover(queue, rows, decisions);
    RowIdIsListed(queue, rows, i);
    hide Decisions, Materializable, DecisionOf, RowIds, DecisionIds, ObjectIds, TrimmedIds, LastOf;
    LastOfDistinct(RowIds(rows), i);
  }

  lemma WhenAllRowsAreFresh(queue: ReviewQueue, rows: seq<ProposalRow>, decisions: seq<Decision>, reviewer: string, reviewedAt: string)
    requires Covering(queue, rows) && TrimmedIds(queue) && Decisions(rows) == Ok(decisions)
    ensures forall id :: id in Keys(ObjectIds(queue.objects)) ==> id in ObjectIds(queue.objects) && id in DecisionIds(decisions)
    ensures FreshRows(Keys(ObjectIds(queue.objects)), queue.objects, decisions, reviewer, reviewedAt).Ok? <==> ApprovesCandidates(queue, rows)
  {
    var keys := Keys(ObjectIds(queue.objects));
    KeysAreDistinct(ObjectIds(queue.objects));
    hide *;
    forall id | id in keys
      ensures exists i :: 0 <= i < |rows| && rows[i].contentId == id
    {
      KeyHasRow(queue, rows, id);
    }
    forall i | 0 <= i < |rows|
      ensures rows[i].contentId in ObjectIds(queue.objects) && rows[i].contentId in DecisionIds(decisions)
      ensures DecideObject(queue.objects[LastOf(ObjectIds(queue.objects), rows[i].contentId)],
                           decisions[LastOf(DecisionIds(decisions), rows[i].contentId)], reviewer, reviewedAt).Ok?
        <==> ApprovesCandidate(queue, rows[i])
    {
      DecisionOfRow(queue, rows, decisions, reviewer, reviewedAt, i);
      RowIsDecidable(ObjectFor(queue, rows[i]), rows[i], reviewer, reviewedAt);
      ApprovesUnfolds(queue, rows[i]);
    }
    FreshIffDecidable(queue, rows, decisions, keys, reviewer, reviewedAt);
  }

  lemma ApprovesUnfolds(queue: ReviewQueue, row: ProposalRow)
    requires row.contentId in ObjectIds(queue.objects)
    ensures ObjectFor(queue, row) == queue.objects[LastOf(ObjectIds(queue.objects), row.contentId)]
    ensures ApprovesCandidate(queue, row) <==> (Upper(row.decision) == APPROVE ==> Strip(row.suggested) == Strip(ObjectFor(queue, row).candidate))
  {
  }

  lemma KeyHasRow(queue: ReviewQueue, rows: seq<ProposalRow>, id: string)
    requires Covering(queue, rows) && id in ObjectIds(queue.objects)
    ensures exists i :: 0 <= i < |rows| && rows[i].contentId == id
  {
    assert id in Elements(RowIds(rows));
    var i :| 0 <= i < |RowIds(rows)| && RowIds(rows)[i] == id;
    assert rows[i].contentId == id;
  }

  lemma FreshIffDecidable(queue: ReviewQueue, rows: seq<ProposalRow>, decisions: seq<Decision>, keys: seq<string>, reviewer: string,
                          reviewedAt: string)
    requires forall id :: id in keys <==> id in ObjectIds(queue.objects)
    requires forall id :: id in keys ==> exists i :: 0 <= i < |rows| && rows[i].contentId == id
    requires forall i :: 0 <= i < |rows| ==>
      && rows[i].contentId in ObjectIds(queue.objects) && rows[i].contentId in DecisionIds(decisions)
      && (DecideObject(queue.objects[LastOf(ObjectIds(queue.objects), rows[i].contentId)],
                       decisions[LastOf(DecisionIds(decisions), rows[i].contentId)], reviewer, reviewedAt).Ok?
          <==> ApprovesCandidate(queue, rows[i]))
    ensures forall id :: id in keys ==> id in ObjectIds(queue.objects) && id in DecisionIds(decisions)
    ensures FreshRows(keys, queue.objects, decisions, reviewer, reviewedAt).Ok? <==> ApprovesCandidates(queue, rows)
  {
    hide DecideObject, LastOf, ObjectIds, DecisionIds, ApprovesCandidate, FreshRows;
    if ApprovesCandidates(queue, rows) {
      AllDecidable(keys, queue.objects, decisions, reviewer, reviewedAt);
    }
    if FreshRows(keys, queue.objects, decisions, reviewer, reviewedAt).Ok? {
      forall i | 0 <= i < |rows|
        ensures ApprovesCandidate(queue, rows[i])
      {
        FreshRowsAt(keys, queue.objects, decisions, reviewer, reviewedAt, rows[i].contentId);
      }
    }
  }

  /**
   * Whatever proposal was materialized, its decisions are accepted exactly when the queue is not empty, its ids carry no
   * blanks, and every approving row gives the candidate of the queue: the validation compared it only with the proposal's
   * own copy. Accepted, each row is recorded as it stands, except for objects that a timeline leaves out.
   */
  lemma WhenMaterializedIsRecorded(queue: ReviewQueue, p: Proposal, approvedSha: Hash, reviewer: string, reviewedAt: string,
                                   existing: Option<ApprovalFile>, timeline: seq<TimelineRow>)
    requires Materialized(queue, p, approvedSha, reviewer, reviewedAt).Ok?
    ensures var r := Recorded(queue, Materialized(queue, p, approvedSha, reviewer, reviewedAt).value, existing, timeline);
      && (r.Ok? <==> queue.objects != [] && TrimmedIds(queue) && ApprovesCandidates(queue, p.body.rows))
      && (r.Ok? ==> forall i :: 0 <= i < |p.body.rows| ==>
            RecordsDecided(queue, p.body.rows[i], timeline, r.value.file.approvals, Strip(reviewer), Strip(reviewedAt)))
  {
    var given, rows := Materialized(queue, p, approvedSha, reviewer, reviewedAt).value, p.body.rows;
    MaterializedPromises(queue, p, approvedSha, reviewer, reviewedAt);
    hide *;
    WhenTrimmedIdsCover(queue, rows, given.body.decisions);
    if TrimmedIds(queue) {
      WhenAllRowsAreFresh(queue, rows, given.body.decisions, Strip(given.body.reviewer), Strip(given.body.reviewedAt));
    }
    WhenDecisionsAreAccepted(queue, given, existing, timeline);
    var r := Recorded(queue, given, existing, timeline);
    if r.Ok? {
      forall i | 0 <= i < |rows|
        ensures RecordsDecided(queue, rows[i], timeline, r.value.file.approvals, Strip(reviewer), Strip(reviewedAt))
      {
        DecidedRowIsRecorded(queue, given, rows, existing, timeline, i);
      }
    }
  }

  lemma WhenDecisionsAreAccepted(queue: ReviewQueue, given: DecisionSet, existing: Option<ApprovalFile>, timeline: seq<TimelineRow>)
    requires given.selfSha == OfDecisions(given.body) && given.body.queueSha == OfQueueFile(queue)
    requires Strip(given.body.reviewer) != "" && Strip(given.body.reviewedAt) != ""
    requires Elements(ObjectIds(queue.objects)) == Elements(DecisionIds(given.body.decisions)) ==>
      forall id :: id in Keys(ObjectIds(queue.objects)) ==> id in ObjectIds(queue.objects) && id in DecisionIds(given.body.decisions)
    ensures Recorded(queue, given, existing, timeline).Ok? <==>
      && queue.objects != []
      && Elements(ObjectIds(queue.objects)) == Elements(DecisionIds(given.body.decisions))
      && FreshRows(Keys(ObjectIds(queue.objects)), queue.objects, given.body.decisions,
                   Strip(given.body.reviewer), Strip(given.body.reviewedAt)).Ok?
  {
    hide Strip, FreshRows, Select, PreservedFrom, OrderedIds, RecordingOf, Keys, ObjectIds, DecisionIds;
  }

  /** How a materialized row is recorded: its own decision for its object and no other, unless a timeline leaves the object out. */
  ghost predicate RecordsDecided(queue: ReviewQueue, row: ProposalRow, timeline: seq<TimelineRow>, approvals: seq<Approval>,
                                 reviewer: string, reviewedAt: string)
  {
    && row.contentId in ObjectIds(queue.objects)
    && var o := ObjectFor(queue, row);
       var mine := Approval(row.contentId, Upper(row.decision), o.reviewHash, Strip(row.suggested), reviewer, reviewedAt);
    && (mine in approvals <==> timeline == [] || row.contentId in TimelineIds(timeline))
    && (forall a :: a in approvals && a.contentId == row.contentId ==> a == mine)
  }

  lemma DecidedRowIsRecorded(queue: ReviewQueue, given: DecisionSet, rows: seq<ProposalRow>, existing: Option<ApprovalFile>,
                             timeline: seq<TimelineRow>, i: nat)
    requires Covering(queue, rows) && TrimmedIds(queue) && Decisions(rows) == Ok(given.body.decisions) && i < |rows|
    requires Recorded(queue, given, existing, timeline).Ok?
    ensures RecordsDecided(queue, rows[i], timeline, Recorded(queue, given, existing, timeline).value.file.approvals,
                           Strip(given.body.reviewer), Strip(given.body.reviewedAt))
  {
    hide Recorded, Decisions, Materializable, DecisionOf, DecideObject, TrimmedIds, Covering, DecisionIds, LastOf, Strip;
    DecisionOfRow(queue, rows, given.body.decisions, Strip(given.body.reviewer), Strip(given.body.reviewedAt), i);
    WhenDecisionIsRecorded(queue, given, existing, timeline, rows[i].contentId);
    RowIsDecidable(ObjectFor(queue, rows[i]), rows[i], Strip(given.body.reviewer), Strip(given.body.reviewedAt));
    ObjectHasId(queue, rows[i]);
  }

  lemma ObjectHasId(queue: ReviewQueue, row: ProposalRow)
    requires row.contentId in ObjectIds(queue.objects)
    ensures ObjectFor(queue, row).contentId == row.contentId
  {
  }

  const QUEUED := ReviewQueue("r", [QueueObject("a", [], [], "x", "h")])

  /** An approval of the row's own candidate, which is not that of the queue. */
  const APPROVED_ROW := ProposalRow("a", [], [], "y", "y", APPROVE, REVIEW_REQUIRED, "h")

  const FOREIGN_CANDIDATE := ProposalBody(OfQueueFile(QUEUED), CountsOf([APPROVED_ROW]), 0, [APPROVED_ROW], [])

  /** A proposal with a candidate of its own validates and materializes, and is refused only when it is recorded. */
  lemma ForeignCandidateIsRefusedLate(existing: Option<ApprovalFile>, timeline: seq<TimelineRow>)
    ensures var given := Materialized(QUEUED, Proposal(FOREIGN_CANDIDATE, OfProposal(FOREIGN_CANDIDATE)), OfProposal(FOREIGN_CANDIDATE), "o", "t");
      given.Ok? && Recorded(QUEUED, given.value, existing, timeline).Err?
  {
    var p := Proposal(FOREIGN_CANDIDATE, OfProposal(FOREIGN_CANDIDATE));
    ForeignCandidateMaterializes(p);
    ForeignCandidateDiffers();
    hide Materialized, Recorded, ApprovesCandidate;
    WhenMaterializedIsRecorded(QUEUED, p, p.selfSha, "o", "t", existing, timeline);
    assert !ApprovesCandidate(QUEUED, p.body.rows[0]);
  }

  lemma ForeignCandidateDiffers()
    ensures !ApprovesCandidate(QUEUED, APPROVED_ROW)
  {
    assert Strip("x") == "x" && Strip("y") == "y" && Upper(APPROVE) == APPROVE;
    assert QUEUED.objects[0].candidate == "x";
  }

  lemma ForeignCandidateMaterializes(p: Proposal)
    requires p == Proposal(FOREIGN_CANDIDATE, OfProposal(FOREIGN_CANDIDATE))
    ensures Materialized(QUEUED, p, p.selfSha, "o", "t").Ok?
  {
    ForeignRow();
    OneRow(APPROVED_ROW);
    ForeignIds(p);
    hide FirstFault, Decisions, Strip, RowFault, Materializable, Materialized, RowIds, ObjectIds;
    WhenRowsMaterialize(QUEUED, p, "o", "t");
  }

  lemma ForeignIds(p: Proposal)
    requires p == Proposal(FOREIGN_CANDIDATE, OfProposal(FOREIGN_CANDIDATE))
    ensures p.body.rows == [APPROVED_ROW] && Distinct(RowIds(p.body.rows)) && RowIds(p.body.rows) == ObjectIds(QUEUED.objects)
    ensures SelfHashed(p) && p.body.queueSha == OfQueueFile(QUEUED) && Strip("o") == "o" && Strip("t") == "t"
  {
    assert RowIds(p.body.rows) == ["a"] == ObjectIds(QUEUED.objects);
  }

  lemma WhenRowsMaterialize(queue: ReviewQueue, p: Proposal, reviewer: string, reviewedAt: string)
    requires SelfHashed(p) && p.body.queueSha == OfQueueFile(queue) && Strip(reviewer) != "" && Strip(reviewedAt) != ""
    requires Distinct(RowIds(p.body.rows)) && RowIds(p.body.rows) == ObjectIds(queue.objects)
    requires FirstFault(p.body.rows).None? && Decisions(p.body.rows).Ok?
    ensures Materialized(queue, p, p.selfSha, reviewer, reviewedAt).Ok?
  {
    FullKeysAreDistinct(RowIds(p.body.rows));
    hide FirstFault, Decisions, Keys, Strip, RowIds, ObjectIds;
  }

  lemma ForeignRow()
    ensures RowFault(APPROVED_ROW).None? && Materializable(APPROVED_ROW)
  {
    assert Strip("y") == "y" && Strip("a") == "a" && Upper(APPROVE) == APPROVE;
  }

  lemma OneRow(row: ProposalRow)
    requires RowFault(row).None? && Materializable(row)
    ensures FirstFault([row]).None? && Decisions([row]).Ok?
  {
    hide RowFault, Materializable;
    assert [row][..|[row]| - 1] == [];
  }

  // ----- The counts of the audit -----

  lemma {:induction false} SelectCounts(ids: seq<string>, rows: map<string, Approval>)
    requires Distinct(ids)
    ensures |Select(ids, rows)| == |Elements(ids) * rows.Keys|
  {
    if ids != [] {
      var front, last := ids[..|ids| - 1], ids[|ids| - 1];
      assert ids == front + [last];
      assert last !in front && Distinct(front);
      hide Distinct, Elements;
      SelectCounts(front, rows);
      KeptElements(front, last, rows.Keys);
    }
  }

  lemma KeptElements(front: seq<string>, last: string, keys: set<string>)
    requires last !in front
    ensures |Elements(front + [last]) * keys| == |Elements(front) * keys| + if last in keys then 1 else 0
  {
    var earlier := Elements(front) * keys;
    assert last !in earlier;
    assert Elements(front + [last]) * keys == if last in keys then earlier + {last} else earlier;
  }

  /**
   * The audit counts at least as many fresh and kept approvals as were written, and exactly as many just when no decision was
   * dropped.
   */
  lemma CountsShowDrops(queue: ReviewQueue, given: DecisionSet, existing: Option<ApprovalFile>, timeline: seq<TimelineRow>)
    requires Recorded(queue, given, existing, timeline).Ok?
    ensures var counts := Recorded(queue, given, existing, timeline).value.counts;
      && counts.objects <= counts.edited + counts.plain + counts.preserved
      && (counts.objects == counts.edited + counts.plain + counts.preserved <==> ListsAll(queue.objects, timeline))
  {
    var queueIds, body := ObjectIds(queue.objects), given.body;
    CoveredIds(queue, body.decisions);
    KeysAreDistinct(queueIds);
    KeysAreDistinct(if timeline != [] then TimelineIds(timeline) else queueIds);
    var decided := FreshRows(Keys(queueIds), queue.objects, body.decisions, Strip(body.reviewer), Strip(body.reviewedAt)).value;
    var preserved, ids := PreservedFrom(existing, queue, timeline), OrderedIds(queue, timeline);
    QueueIsListed(queue.objects, timeline);
    hide FreshRows, PreservedFrom, Strip, ObjectIds, DecisionIds, TimelineIds, Keys, RecordingOf, ListsAll, DigestLength, CoversQueue;
    forall id
      ensures id in decided <==> id in queueIds
      ensures id in preserved ==> id !in queueIds && timeline != [] && id in TimelineIds(timeline)
    {
      FreshRowsAt(Keys(queueIds), queue.objects, body.decisions, Strip(body.reviewer), Strip(body.reviewedAt), id);
      if id in preserved {
        PreservedIsListed(existing, queue, timeline, id);
      }
    }
    CountsOfMaps(queue.phase1Ref, ids, preserved, decided);
  }

  lemma PreservedIsListed(existing: Option<ApprovalFile>, queue: ReviewQueue, timeline: seq<TimelineRow>, id: string)
    requires id in PreservedFrom(existing, queue, timeline)
    ensures id !in ObjectIds(queue.objects) && timeline != [] && id in TimelineIds(timeline)
  {
    PreservedAt(existing.value.approvals, ObjectIds(queue.objects), timeline, id);
  }

  lemma QueueIsListed(objects: seq<QueueObject>, timeline: seq<TimelineRow>)
    ensures ListsAll(objects, timeline) <==> timeline == [] || forall id :: id in ObjectIds(objects) ==> id in TimelineIds(timeline)
  {
    IdsAreListed(objects);
    assert forall i :: 0 <= i < |objects| ==> ObjectIds(objects)[i] == objects[i].contentId;
  }

  lemma CountsOfMaps(phase1Ref: string, ids: seq<string>, preserved: map<string, Approval>, decided: map<string, Approval>)
    requires Distinct(ids) && forall id :: id in preserved ==> id !in decided
    ensures var counts := RecordingOf(phase1Ref, ids, preserved, decided).counts;
      && counts.edited + counts.plain + counts.preserved == |decided| + |preserved|
      && counts.objects <= |decided| + |preserved|
      && (counts.objects == |decided| + |preserved| <==> forall id :: id in preserved || id in decided ==> id in ids)
  {
    var rows := preserved + decided;
    SelectCounts(ids, rows);
    assert rows.Keys == preserved.Keys + decided.Keys;
    SubsetIsSmaller(Elements(ids) * rows.Keys, rows.Keys);
    assert Elements(ids) * rows.Keys == rows.Keys <==> forall id :: id in preserved || id in decided ==> id in ids;
  }

  // ----- The order written -----

  /** The first place of an id. */
  ghost predicate FirstAt(ids: seq<string>, id: string, p: int) { 0 <= p < |ids| && ids[p] == id && forall i :: 0 <= i < p ==> ids[i] != id }

  lemma {:induction false} KeysKeepOrder(ids: seq<string>, i: nat, j: nat, p: int, q: int)
    requires i < j < |Keys(ids)| && FirstAt(ids, Keys(ids)[i], p) && FirstAt(ids, Keys(ids)[j], q)
    ensures p < q
  {
    KeysAreDistinct(ids);
    var n := |ids| - 1;
    var front, keys := ids[..n], Keys(ids[..n]);
    KeysAreDistinct(front);
    assert Keys(ids)[i] == keys[i];
    assert keys[i] in front;
    assert p < n by {
      var k :| 0 <= k < |front| && front[k] == keys[i];
    }
    assert FirstAt(front, keys[i], p);
    if j < |keys| {
      assert keys[j] in front;
      assert q < n by {
        var k :| 0 <= k < |front| && front[k] == keys[j];
      }
      assert FirstAt(front, keys[j], q);
      KeysKeepOrder(front, i, j, p, q);
    } else {
      assert Keys(ids)[j] == ids[n] && ids[n] !in front;
      assert forall k :: 0 <= k < n ==> ids[k] == front[k] && ids[k] in front;
    }
  }

  /** What is selected follows the list: `kept` gives the place of each row. */
  ghost predicate Follows(ids: seq<string>, rows: map<string, Approval>, selected: seq<Approval>, kept: seq<int>) {
    && |kept| == |selected| && (forall i, j :: 0 <= i < j < |kept| ==> kept[i] < kept[j])
    && forall i :: 0 <= i < |kept| ==> 0 <= kept[i] < |ids| && ids[kept[i]] in rows && selected[i] == rows[ids[kept[i]]]
  }

  lemma {:induction false} SelectFollows(ids: seq<string>, rows: map<string, Approval>) returns (kept: seq<int>)
    ensures Follows(ids, rows, Select(ids, rows), kept)
  {
    kept := [];
    if ids != [] {
      var n := |ids| - 1;
      kept := SelectFollows(ids[..n], rows);
      if ids[n] in rows {
        kept := kept + [n];
      }
    }
  }

  /** The written approvals are in the order of the timeline, or without one of the queue, each id at its first place. */
  lemma WrittenInOrder(queue: ReviewQueue, given: DecisionSet, existing: Option<ApprovalFile>, timeline: seq<TimelineRow>,
                       i: nat, j: nat, p: int, q: int)
    requires Recorded(queue, given, existing, timeline).Ok?
    requires i < j < |Recorded(queue, given, existing, timeline).value.file.approvals|
    requires var approvals := Recorded(queue, given, existing, timeline).value.file.approvals;
      var base := if timeline != [] then TimelineIds(timeline) else ObjectIds(queue.objects);
      FirstAt(base, approvals[i].contentId, p) && FirstAt(base, approvals[j].contentId, q)
    ensures p < q
  {
    var queueIds, body := ObjectIds(queue.objects), given.body;
    var base := if timeline != [] then TimelineIds(timeline) else queueIds;
    CoveredIds(queue, body.decisions);
    var decided := FreshRows(Keys(queueIds), queue.objects, body.decisions, Strip(body.reviewer), Strip(body.reviewedAt)).value;
    var rows := PreservedFrom(existing, queue, timeline) + decided;
    RecordedApprovals(queue, given, existing, timeline, decided);
    var kept := SelectFollows(OrderedIds(queue, timeline), rows);
    assert kept[i] < kept[j];
    hide Recorded, FreshRows, PreservedFrom, Select, Keys, Strip, CoversQueue, FirstAt, TimelineIds, ObjectIds, DecisionIds;
    RowKeepsKey(queue, given, existing, timeline, rows, Keys(base)[kept[i]]);
    RowKeepsKey(queue, given, existing, timeline, rows, Keys(base)[kept[j]]);
    KeysKeepOrder(base, kept[i], kept[j], p, q);
  }
}
