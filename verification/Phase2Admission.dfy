/** What each step of the Phase 2 chain demands of the documents it is given, whoever made them, and what it makes of them. */
module Phase2Admission {
  import opened Prelude
  import opened Text
  import opened Keyed
  import opened Phase2Rows
  import opened Phase2Review
  import OperatorReview
  import Phase2Batch
  import Rollback

  // ----- Validating a proposal -----

  /** The decision is known, and the text is the one that goes with it; a row that needs the operator's input has neither. */
  predicate RowIsSound(row: ProposalRow) {
    var decision, text := Upper(row.decision), Strip(row.suggested);
    && (decision == "" || decision == "APPROVE" || decision == "EDIT" || decision == "REJECT_UI")
    && (decision == "APPROVE" ==> text == Strip(row.candidate))
    && (decision == "EDIT" ==> text != "")
    && (decision == "REJECT_UI" ==> text == "")
    && (row.status == "OPERATOR_INPUT_REQUIRED" ==> decision == "" && text == "")
  }

  lemma WhenRowIsSound(row: ProposalRow)
    ensures RowFault(row).None? <==> RowIsSound(row)
  {
    hide Upper, Strip;
  }

  /** The first row that is not sound. */
  predicate FirstUnsound(rows: seq<ProposalRow>, k: int) {
    0 <= k < |rows| && !RowIsSound(rows[k]) && forall i :: 0 <= i < k ==> RowIsSound(rows[i])
  }

  lemma {:induction false} FirstFaultIs(rows: seq<ProposalRow>)
    ensures FirstFault(rows).None? <==> forall i :: 0 <= i < |rows| ==> RowIsSound(rows[i])
    ensures FirstFault(rows).Some? ==> exists k :: FirstUnsound(rows, k) && FirstFault(rows) == RowFault(rows[k])
  {
    hide RowFault, RowIsSound, FirstUnsound;
    if rows != [] {
      var n := |rows| - 1;
      var front, last := rows[..n], rows[n];
      assert rows == front + [last];
      FirstFaultIs(front);
      WhenRowIsSound(last);
      if FirstFault(front).Some? {
        forall k | FirstUnsound(front, k)
          ensures 0 <= k < n && rows[k] == front[k] && FirstUnsound(rows, k)
        {
          OneMoreRow(front, last, k);
        }
        var k :| FirstUnsound(front, k) && FirstFault(front) == RowFault(front[k]);
        OneMoreRow(front, last, k);
      } else {
        OneMoreRow(front, last, 0);
      }
    }
  }

  lemma OneMoreRow(front: seq<ProposalRow>, last: ProposalRow, k: int)
    ensures FirstUnsound(front, k) ==> 0 <= k < |front| && !RowIsSound(front[k]) && FirstUnsound(front + [last], k)
    ensures (forall i :: 0 <= i < |front| ==> RowIsSound(front[i])) && !RowIsSound(last) ==> FirstUnsound(front + [last], |front|)
  {
    hide RowIsSound;
    assert forall i :: 0 <= i < |front| ==> (front + [last])[i] == front[i];
  }

  ghost predicate HasRow(rows: seq<ProposalRow>, id: string) { exists i :: 0 <= i < |rows| && rows[i].contentId == id }

  ghost predicate HasObject(objects: seq<QueueObject>, id: string) { exists i :: 0 <= i < |objects| && objects[i].contentId == id }

  /** No two rows have the same id, and their ids are those of the queue. */
  ghost predicate CoversOnce(rows: seq<ProposalRow>, objects: seq<QueueObject>) {
    && (forall i, j :: 0 <= i < j < |rows| ==> rows[i].contentId != rows[j].contentId)
    && (forall id :: HasRow(rows, id) <==> HasObject(objects, id))
  }

  lemma WhenItCovers(rows: seq<ProposalRow>, objects: seq<QueueObject>)
    ensures |Keys(RowIds(rows))| == |rows| && Elements(RowIds(rows)) == Elements(ObjectIds(objects)) <==> CoversOnce(rows, objects)
  {
    var a, b := RowIds(rows), ObjectIds(objects);
    FullKeysAreDistinct(a);
    assert forall i :: 0 <= i < |rows| ==> a[i] == rows[i].contentId;
    assert forall i :: 0 <= i < |objects| ==> b[i] == objects[i].contentId;
    hide RowIds, ObjectIds, Keys;
    forall id
      ensures HasRow(rows, id) <==> id in Elements(a)
      ensures HasObject(objects, id) <==> id in Elements(b)
    {
      if id in a {
        var i :| 0 <= i < |a| && a[i] == id;
        assert rows[i].contentId == id;
      }
      if id in b {
        var i :| 0 <= i < |b| && b[i] == id;
        assert objects[i].contentId == id;
      }
    }
    if CoversOnce(rows, objects) {
      assert forall id :: id in Elements(a) <==> id in Elements(b);
    }
  }

  /** The proposal is hashed over its own content, was made for this queue, and covers it once with sound rows. */
  ghost predicate Validates(queue: ReviewQueue, p: Proposal) {
    && p.selfSha == OfProposal(p.body) && p.body.queueSha == OfQueueFile(queue) && CoversOnce(p.body.rows, queue.objects)
    && forall i :: 0 <= i < |p.body.rows| ==> RowIsSound(p.body.rows[i])
  }

  /** A proposal validates exactly when all of that holds; otherwise the first of it that fails is reported. */
  lemma WhenProposalValidates(queue: ReviewQueue, p: Proposal)
    ensures var fault := ProposalFault(queue, p);
      && (fault.None? <==> Validates(queue, p))
      && (p.selfSha != OfProposal(p.body) ==> fault == Some(InvalidSelfHash))
      && (p.selfSha == OfProposal(p.body) && p.body.queueSha != OfQueueFile(queue) ==> fault == Some(StaleQueue))
      && (p.selfSha == OfProposal(p.body) && p.body.queueSha == OfQueueFile(queue) && !CoversOnce(p.body.rows, queue.objects) ==>
            fault == Some(NotCovering))
      && (fault.Some? && p.selfSha == OfProposal(p.body) && p.body.queueSha == OfQueueFile(queue) && CoversOnce(p.body.rows, queue.objects) ==>
            exists k :: FirstUnsound(p.body.rows, k) && fault == RowFault(p.body.rows[k]))
  {
    WhenItCovers(p.body.rows, queue.objects);
    FirstFaultIs(p.body.rows);
    hide RowFault, RowIsSound, FirstFault, CoversOnce, Keys, RowIds, ObjectIds, FirstUnsound;
  }

  // ----- Materializing it -----

  /** The row has an id and a decision, and a text unless it is rejected. */
  predicate IsDecided(row: ProposalRow) {
    && Strip(row.contentId) != ""
    && (Upper(row.decision) == "REJECT_UI"
        || ((Upper(row.decision) == "APPROVE" || Upper(row.decision) == "EDIT") && Strip(row.suggested) != ""))
  }

  lemma {:induction false} DecisionsAre(rows: seq<ProposalRow>)
    ensures Decisions(rows).Ok? <==> forall i :: 0 <= i < |rows| ==> IsDecided(rows[i])
    ensures Decisions(rows).Ok? ==>
      && |Decisions(rows).value| == |rows|
      && forall i :: 0 <= i < |rows| ==>
           Decisions(rows).value[i] == Decision(Strip(rows[i].contentId), Upper(rows[i].decision), Strip(rows[i].suggested))
  {
    hide Strip, Upper;
    if rows != [] {
      DecisionsAre(rows[..|rows| - 1]);
      WhenItIsDecided(rows[|rows| - 1]);
    }
  }

  lemma WhenItIsDecided(row: ProposalRow)
    ensures Materializable(row) <==> IsDecided(row)
  {
    hide Strip, Upper;
  }

  /** The decisions of the rows in order, hashed over their content, with what they were made from and by whom. */
  ghost predicate MadeFrom(given: DecisionSet, queue: ReviewQueue, p: Proposal, reviewer: string, reviewedAt: string) {
    var body, rows := given.body, p.body.rows;
    && given.selfSha == OfDecisions(body) && body.queueSha == OfQueueFile(queue) && body.proposalSha == p.selfSha
    && body.proposalFileSha == OfProposalFile(p) && body.reviewer == Strip(reviewer) && body.reviewedAt == Strip(reviewedAt)
    && |body.decisions| == |rows|
    && forall i :: 0 <= i < |rows| ==>
         body.decisions[i] == Decision(Strip(rows[i].contentId), Upper(rows[i].decision), Strip(rows[i].suggested))
  }

  /** Decisions are made exactly from a valid proposal that is the approved one, with reviewer and time, and decided in every row. */
  lemma WhenProposalMaterializes(queue: ReviewQueue, p: Proposal, approvedSha: Hash, reviewer: string, reviewedAt: string)
    ensures var r := Materialized(queue, p, approvedSha, reviewer, reviewedAt);
      && (r.Ok? <==>
            && Validates(queue, p) && approvedSha == p.selfSha && Strip(reviewer) != "" && Strip(reviewedAt) != ""
            && forall i :: 0 <= i < |p.body.rows| ==> IsDecided(p.body.rows[i]))
      && (r.Ok? ==> MadeFrom(r.value, queue, p, reviewer, reviewedAt))
  {
    WhenProposalValidates(queue, p);
    ValidatedIsBound(queue, p);
    DecisionsAre(p.body.rows);
    hide Validates, ProposalFault, IsDecided, Decisions, Strip, Upper;
  }

  lemma ValidatedIsBound(queue: ReviewQueue, p: Proposal)
    ensures Validates(queue, p) ==> p.body.queueSha == OfQueueFile(queue)
  {
  }

  // ----- Recording the decisions -----

  /** What may be decided on an object: its candidate as it is, another text, or nothing but a rejection or the source. */
  predicate Allowed(o: QueueObject, d: Decision) {
    || (Upper(d.decision) == "APPROVE" && Strip(d.text) != "" && Strip(d.text) == Strip(o.candidate))
    || (Upper(d.decision) == "EDIT" && Strip(d.text) != "")
    || Upper(d.decision) == "REJECT_UI" || Upper(d.decision) == "PRESERVE_SOURCE"
  }

  lemma WhenObjectIsDecided(o: QueueObject, d: Decision, reviewer: string, reviewedAt: string)
    ensures var r := OperatorReview.DecideObject(o, d, reviewer, reviewedAt);
      && (r.Ok? <==> Allowed(o, d))
      && (r.Ok? ==> r.value == OperatorReview.Approval(o.contentId, Upper(d.decision), o.reviewHash, Strip(d.text), reviewer, reviewedAt))
  {
    hide Upper, Strip;
  }

  ghost predicate HasDecision(decisions: seq<Decision>, id: string) { exists i :: 0 <= i < |decisions| && decisions[i].contentId == id }

  /** The object and the decision are the last of their id. */
  ghost predicate Meet(objects: seq<QueueObject>, decisions: seq<Decision>, i: int, j: int) {
    && 0 <= i < |objects| && 0 <= j < |decisions| && objects[i].contentId == decisions[j].contentId
    && (forall k :: i < k < |objects| ==> objects[k].contentId != objects[i].contentId)
    && (forall k :: j < k < |decisions| ==> decisions[k].contentId != decisions[j].contentId)
  }

  ghost predicate AllAllowed(objects: seq<QueueObject>, decisions: seq<Decision>) {
    forall i, j :: Meet(objects, decisions, i, j) ==> Allowed(objects[i], decisions[j])
  }

  /** The decisions name exactly the ids of the queue, and each is allowed on its object. */
  ghost predicate DecidesQueue(objects: seq<QueueObject>, decisions: seq<Decision>) {
    && objects != [] && (forall id :: HasObject(objects, id) <==> HasDecision(decisions, id))
    && AllAllowed(objects, decisions)
  }

  lemma WhenQueueIsCovered(queue: ReviewQueue, decisions: seq<Decision>)
    ensures OperatorReview.CoversQueue(queue, decisions) <==>
      queue.objects != [] && forall id :: HasObject(queue.objects, id) <==> HasDecision(decisions, id)
  {
    var a, b := ObjectIds(queue.objects), OperatorReview.DecisionIds(decisions);
    assert forall i :: 0 <= i < |queue.objects| ==> a[i] == queue.objects[i].contentId;
    assert forall i :: 0 <= i < |decisions| ==> b[i] == decisions[i].contentId;
    hide ObjectIds, OperatorReview.DecisionIds;
    forall id
      ensures HasObject(queue.objects, id) <==> id in Elements(a)
      ensures HasDecision(decisions, id) <==> id in Elements(b)
    {
      if id in a {
        var i :| 0 <= i < |a| && a[i] == id;
        assert queue.objects[i].contentId == id;
      }
      if id in b {
        var i :| 0 <= i < |b| && b[i] == id;
        assert decisions[i].contentId == id;
      }
    }
    assert Elements(a) == Elements(b) <==> forall id :: id in Elements(a) <==> id in Elements(b);
  }

  /** The last positions of an id are where its object and its decision meet. */
  lemma MeetAtLast(objects: seq<QueueObject>, decisions: seq<Decision>, i: int, j: int)
    ensures Meet(objects, decisions, i, j) ==>
      var id := objects[i].contentId;
      && id in ObjectIds(objects) && id in OperatorReview.DecisionIds(decisions)
      && LastOf(ObjectIds(objects), id) == i && LastOf(OperatorReview.DecisionIds(decisions), id) == j
  {
    var a, b := ObjectIds(objects), OperatorReview.DecisionIds(decisions);
    assert forall k :: 0 <= k < |objects| ==> a[k] == objects[k].contentId;
    assert forall k :: 0 <= k < |decisions| ==> b[k] == decisions[k].contentId;
    hide ObjectIds, OperatorReview.DecisionIds, LastOf;
    if Meet(objects, decisions, i, j) {
      assert a[i] in a && b[j] in b;
    }
  }

  lemma LastMeet(objects: seq<QueueObject>, decisions: seq<Decision>, id: string)
    requires id in ObjectIds(objects) && id in OperatorReview.DecisionIds(decisions)
    ensures Meet(objects, decisions, LastOf(ObjectIds(objects), id), LastOf(OperatorReview.DecisionIds(decisions), id))
  {
    var a, b := ObjectIds(objects), OperatorReview.DecisionIds(decisions);
    assert forall k :: 0 <= k < |objects| ==> a[k] == objects[k].contentId;
    assert forall k :: 0 <= k < |decisions| ==> b[k] == decisions[k].contentId;
    hide ObjectIds, OperatorReview.DecisionIds, LastOf;
  }

  lemma WhenRowsAreFresh(objects: seq<QueueObject>, decisions: seq<Decision>, reviewer: string, reviewedAt: string)
    requires forall id :: id in Keys(ObjectIds(objects)) ==> id in ObjectIds(objects) && id in OperatorReview.DecisionIds(decisions)
    ensures OperatorReview.FreshRows(Keys(ObjectIds(objects)), objects, decisions, reviewer, reviewedAt).Ok? <==> AllAllowed(objects, decisions)
  {
    var keys := Keys(ObjectIds(objects));
    KeysAreDistinct(ObjectIds(objects));
    hide Keys, ObjectIds, OperatorReview.DecisionIds, LastOf, Allowed, Meet, OperatorReview.DecideObject, OperatorReview.FreshRows;
    if OperatorReview.FreshRows(keys, objects, decisions, reviewer, reviewedAt).Ok? {
      forall i, j | Meet(objects, decisions, i, j)
        ensures 0 <= i < |objects| && 0 <= j < |decisions| && Allowed(objects[i], decisions[j])
      {
        InRange(objects, decisions, i, j);
        MeetAtLast(objects, decisions, i, j);
        OperatorReview.FreshRowsAt(keys, objects, decisions, reviewer, reviewedAt, objects[i].contentId);
        WhenObjectIsDecided(objects[i], decisions[j], reviewer, reviewedAt);
      }
    }
    if AllAllowed(objects, decisions) {
      forall id | id in keys
        ensures OperatorReview.DecideObject(objects[LastOf(ObjectIds(objects), id)],
                                            decisions[LastOf(OperatorReview.DecisionIds(decisions), id)], reviewer, reviewedAt).Ok?
      {
        LastMeet(objects, decisions, id);
        WhenObjectIsDecided(objects[LastOf(ObjectIds(objects), id)], decisions[LastOf(OperatorReview.DecisionIds(decisions), id)],
                            reviewer, reviewedAt);
      }
      OperatorReview.AllDecidable(keys, objects, decisions, reviewer, reviewedAt);
    }
  }

  lemma InRange(objects: seq<QueueObject>, decisions: seq<Decision>, i: int, j: int)
    requires Meet(objects, decisions, i, j)
    ensures 0 <= i < |objects| && 0 <= j < |decisions|
  {
  }

  /**
   * Decisions are recorded exactly when they are hashed over their own content, were made for this queue, name reviewer and time,
   * and decide every object of the queue and no other, each in a way it allows. Earlier approvals have no say in it.
   */
  lemma WhenDecisionsAreRecorded(queue: ReviewQueue, given: DecisionSet, existing: Option<OperatorReview.ApprovalFile>,
                                 timeline: seq<OperatorReview.TimelineRow>)
    ensures var r := OperatorReview.Recorded(queue, given, existing, timeline);
      && (r.Ok? <==>
            && given.selfSha == OfDecisions(given.body) && given.body.queueSha == OfQueueFile(queue)
            && Strip(given.body.reviewer) != "" && Strip(given.body.reviewedAt) != ""
            && DecidesQueue(queue.objects, given.body.decisions))
      && (r.Ok? ==> r.value.file.phase1Ref == queue.phase1Ref)
  {
    WhenQueueIsCovered(queue, given.body.decisions);
    hide Keys, ObjectIds, OperatorReview.DecisionIds, HasObject, HasDecision, Meet, Allowed, Strip, OperatorReview.FreshRows,
         OperatorReview.CoversQueue, OperatorReview.PreservedFrom, OperatorReview.Select;
    if OperatorReview.CoversQueue(queue, given.body.decisions) {
      OperatorReview.CoveredIds(queue, given.body.decisions);
      WhenRowsAreFresh(queue.objects, given.body.decisions, Strip(given.body.reviewer), Strip(given.body.reviewedAt));
    }
  }

  /** What is written for an object the timeline does not leave out, of the last object and the last decision of its id. */
  lemma WhatIsRecorded(queue: ReviewQueue, given: DecisionSet, existing: Option<OperatorReview.ApprovalFile>,
                       timeline: seq<OperatorReview.TimelineRow>, i: int, j: int)
    requires OperatorReview.Recorded(queue, given, existing, timeline).Ok? && Meet(queue.objects, given.body.decisions, i, j)
    requires timeline == [] || exists k :: 0 <= k < |timeline| && timeline[k].contentId == queue.objects[i].contentId
    ensures var o, d := queue.objects[i], given.body.decisions[j];
      OperatorReview.Approval(o.contentId, Upper(d.decision), o.reviewHash, Strip(d.text), Strip(given.body.reviewer), Strip(given.body.reviewedAt))
      in OperatorReview.Recorded(queue, given, existing, timeline).value.file.approvals
  {
    var o, d := queue.objects[i], given.body.decisions[j];
    MeetAtLast(queue.objects, given.body.decisions, i, j);
    if timeline != [] {
      var k :| 0 <= k < |timeline| && timeline[k].contentId == o.contentId;
      assert OperatorReview.TimelineIds(timeline)[k] == o.contentId;
    }
    hide OperatorReview.Recorded, OperatorReview.DecideObject, OperatorReview.TimelineIds, Strip, Upper, Meet, LastOf;
    OperatorReview.WhenDecisionIsRecorded(queue, given, existing, timeline, o.contentId);
    WhenObjectIsDecided(o, d, Strip(given.body.reviewer), Strip(given.body.reviewedAt));
  }

  // ----- One case of a batch -----

  /** What applying a case reads: a missing timeline is an empty one, and beside that earlier approvals are not looked at. */
  ghost predicate Reads(files: Phase2Batch.CaseFiles, root: string, given: DecisionSet, queue: ReviewQueue,
                        timeline: seq<OperatorReview.TimelineRow>, existing: Option<OperatorReview.ApprovalFile>)
  {
    && Rollback.Lookup(files, Rollback.Path(root, Rollback.Decisions)) == Some(Phase2Batch.DecisionsFile(given))
    && Rollback.Lookup(files, Rollback.Path(root, Rollback.Queue)) == Some(Phase2Batch.QueueFile(queue))
    && (Rollback.Lookup(files, Rollback.Path(root, Rollback.Timeline)) == Some(Phase2Batch.TimelineFile(timeline))
        || (Rollback.Lookup(files, Rollback.Path(root, Rollback.Timeline)) == None && timeline == []))
    && var approvals := Rollback.Lookup(files, Rollback.Path(root, Rollback.Approvals));
    if timeline == [] || approvals.None? then existing == None
    else existing.Some? && approvals == Some(Phase2Batch.ApprovalsFile(existing.value))
  }

  /** The audit names the reviewer and the time, what was decided on and by which decisions, and the counts. */
  predicate Audits(audit: Phase2Batch.ReviewAudit, given: DecisionSet, counts: OperatorReview.ReviewCounts) {
    && audit.reviewer == Strip(given.body.reviewer) && audit.reviewedAt == Strip(given.body.reviewedAt)
    && audit.queueSha == given.body.queueSha && audit.decisionsSha == given.selfSha && audit.counts == counts
  }

  /** A case is applied exactly when its files can be read and its decisions recorded; then both results are written. */
  lemma WhenCaseIsReviewed(files: Phase2Batch.CaseFiles, root: string)
    ensures var r := Phase2Batch.ReviewCase(root, files);
      && (r.Some? ==> exists given, queue, timeline, existing :: Reads(files, root, given, queue, timeline, existing))
      && (forall given, queue, timeline, existing :: Reads(files, root, given, queue, timeline, existing) ==>
            var recorded := OperatorReview.Recorded(queue, given, existing, timeline);
            && (r.Some? <==> recorded.Ok?)
            && (r.Some? ==>
                  && r.value.0 == Phase2Batch.ApprovalsFile(recorded.value.file)
                  && r.value.1.AuditFile? && Audits(r.value.1.audit, given, recorded.value.counts)))
  {
    hide OperatorReview.Recorded, Strip;
    var given, queue, timeline := Phase2Batch.ReadDecisions(files, root), Phase2Batch.ReadQueue(files, root), Phase2Batch.ReadTimeline(files, root);
    if Phase2Batch.ReviewCase(root, files).Some? {
      assert Reads(files, root, given.value, queue.value, timeline.value, Phase2Batch.ReadExisting(files, root, timeline.value).value);
    }
  }

  /** The files of a listed case are there, in the case's own directory, and as they were when the batch was made. */
  ghost predicate Stands(files: Phase2Batch.CaseFiles, c: Phase2Batch.BatchCase, queue: ReviewQueue, p: Proposal) {
    var root := Strip(c.caseId);
    && root != "" && c.proposalPath.root == root
    && Rollback.Lookup(files, c.proposalPath) == Some(Phase2Batch.ProposalFile(p))
    && Rollback.Lookup(files, Rollback.Path(root, Rollback.Queue)) == Some(Phase2Batch.QueueFile(queue))
    && c.proposalFileSha == OfProposalFile(p) && c.proposalSha == p.selfSha && c.queueSha == OfQueueFile(queue)
  }

  /** A case is prepared exactly when its files stand and its proposal materializes; its decisions are those of the proposal. */
  lemma WhenCaseIsPrepared(files: Phase2Batch.CaseFiles, c: Phase2Batch.BatchCase, reviewer: string, reviewedAt: string)
    ensures var r := Phase2Batch.PrepareCase(files, c, reviewer, reviewedAt);
      && (r.Ok? ==> exists queue, p :: Stands(files, c, queue, p))
      && (forall queue, p :: Stands(files, c, queue, p) ==>
            var decisions := Materialized(queue, p, p.selfSha, reviewer, reviewedAt);
            && (r.Ok? <==> decisions.Ok?)
            && (r.Ok? ==> r.value.decisions == Phase2Batch.DecisionsFile(decisions.value) && r.value.subject.root == Strip(c.caseId))
            && (r.Err? ==> r.error == Phase2Batch.CannotMaterialize(Strip(c.caseId), decisions.error)))
  {
    hide Materialized, Strip;
    var queue, p := Phase2Batch.ReadQueue(files, Strip(c.caseId)), Phase2Batch.ReadProposal(files, c.proposalPath);
    if Phase2Batch.PrepareCase(files, c, reviewer, reviewedAt).Ok? {
      assert Stands(files, c, queue.value, p.value);
    }
  }

  /** The first case that is not prepared. */
  ghost predicate FirstUnprepared(files: Phase2Batch.CaseFiles, cases: seq<Phase2Batch.BatchCase>, reviewer: string, reviewedAt: string, k: int) {
    && 0 <= k < |cases| && Phase2Batch.PrepareCase(files, cases[k], reviewer, reviewedAt).Err?
    && forall i :: 0 <= i < k ==> Phase2Batch.PrepareCase(files, cases[i], reviewer, reviewedAt).Ok?
  }

  /** A batch is prepared case by case, in order; the first case that is not decides the error. */
  lemma {:induction false} WhenBatchIsPrepared(files: Phase2Batch.CaseFiles, cases: seq<Phase2Batch.BatchCase>, reviewer: string, reviewedAt: string)
    ensures var r := Phase2Batch.Prepared(files, cases, reviewer, reviewedAt);
      && (r.Ok? <==> forall i :: 0 <= i < |cases| ==> Phase2Batch.PrepareCase(files, cases[i], reviewer, reviewedAt).Ok?)
      && (r.Ok? ==>
            && |r.value| == |cases|
            && forall i :: 0 <= i < |cases| ==> Phase2Batch.PrepareCase(files, cases[i], reviewer, reviewedAt) == Ok(r.value[i]))
      && (r.Err? ==> exists k ::
            FirstUnprepared(files, cases, reviewer, reviewedAt, k)
            && r.error == Phase2Batch.PrepareCase(files, cases[k], reviewer, reviewedAt).error)
  {
    hide Phase2Batch.PrepareCase;
    if cases != [] {
      var n := |cases| - 1;
      var front := cases[..n];
      WhenBatchIsPrepared(files, front, reviewer, reviewedAt);
      assert forall i :: 0 <= i < n ==> front[i] == cases[i];
      if Phase2Batch.Prepared(files, front, reviewer, reviewedAt).Err? {
        var k :| FirstUnprepared(files, front, reviewer, reviewedAt, k)
          && Phase2Batch.Prepared(files, front, reviewer, reviewedAt).error
             == Phase2Batch.PrepareCase(files, front[k], reviewer, reviewedAt).error;
        assert FirstUnprepared(files, cases, reviewer, reviewedAt, k);
      } else if Phase2Batch.Prepared(files, cases, reviewer, reviewedAt).Err? {
        assert FirstUnprepared(files, cases, reviewer, reviewedAt, n);
      }
    }
  }
}
