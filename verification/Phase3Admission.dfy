/** What applying Phase 3 proposals demands of the documents it is given, whoever made them, and what it makes of them. */
module Phase3Admission {
  import opened Prelude
  import opened Text
  import opened Sorting
  import opened Keyed
  import opened Phase3Review
  import opened Phase3Batch
  import Phase3EndToEnd
  import Rollback

  // ----- One proposal -----

  ghost predicate HasRow(queue: seq<QueueRow>, id: string) { exists i :: 0 <= i < |queue| && queue[i].contentId == id }

  ghost predicate HasProposed(rows: seq<ProposalRow>, id: string) { exists i :: 0 <= i < |rows| && rows[i].contentId == id }

  /** The queue has rows, each with an id, and the proposal names these ids and no other. */
  ghost predicate CoversQueue(queue: seq<QueueRow>, rows: seq<ProposalRow>) {
    queue != [] && !HasRow(queue, "") && forall id :: HasRow(queue, id) <==> HasProposed(rows, id)
  }

  lemma WhenItCovers(queue: seq<QueueRow>, rows: seq<ProposalRow>)
    ensures Covers(queue, rows) <==> CoversQueue(queue, rows)
  {
    var a, b := QueueIds(queue), ProposalIds(rows);
    Phase3EndToEnd.KeysHaveSameElements(a);
    Phase3EndToEnd.KeysHaveSameElements(b);
    assert forall i :: 0 <= i < |queue| ==> a[i] == queue[i].contentId;
    assert forall i :: 0 <= i < |rows| ==> b[i] == rows[i].contentId;
    hide QueueIds, ProposalIds, Keys;
    forall id
      ensures HasRow(queue, id) <==> id in Elements(a)
      ensures HasProposed(rows, id) <==> id in Elements(b)
    {
      if id in a {
        var i :| 0 <= i < |a| && a[i] == id;
        assert queue[i].contentId == id;
      }
      if id in b {
        var i :| 0 <= i < |b| && b[i] == id;
        assert rows[i].contentId == id;
      }
    }
    assert Elements(a) == Elements(b) <==> forall id :: id in Elements(a) <==> id in Elements(b);
  }

  /** The row was made for this content, and approves exactly the candidate as it is. */
  predicate MayDecide(q: QueueRow, p: ProposalRow) {
    var decision, text, candidate := Upper(p.recommendation), Strip(p.proposed), Strip(q.candidate);
    && p.reviewHash == q.reviewHash && Strip(p.candidate) == candidate && text != ""
    && ((decision == "APPROVE" && text == candidate) || (decision == "EDIT" && text != candidate))
  }

  function ApprovalOf(q: QueueRow, p: ProposalRow, operator: string, approvedAt: string): ApprovalRow {
    ApprovalRow(q.contentId, Upper(p.recommendation), q.reviewHash, Strip(p.proposed), operator, approvedAt)
  }

  lemma WhenRowIsDecided(operator: string, approvedAt: string, q: QueueRow, p: ProposalRow)
    ensures var r := DecideRow(operator, approvedAt, q, p);
      (r.Ok? <==> MayDecide(q, p)) && (r.Ok? ==> r.value == ApprovalOf(q, p, operator, approvedAt))
  {
    hide Upper, Strip;
  }

  /** The queue row and the proposed row are the last of their id. */
  ghost predicate Meet(queue: seq<QueueRow>, rows: seq<ProposalRow>, i: int, j: int) {
    && 0 <= i < |queue| && 0 <= j < |rows| && queue[i].contentId == rows[j].contentId
    && (forall k :: i < k < |queue| ==> queue[k].contentId != queue[i].contentId)
    && (forall k :: j < k < |rows| ==> rows[k].contentId != rows[j].contentId)
  }

  ghost predicate AllMayDecide(queue: seq<QueueRow>, rows: seq<ProposalRow>) {
    forall i, j :: Meet(queue, rows, i, j) ==> MayDecide(queue[i], rows[j])
  }

  lemma InRange(queue: seq<QueueRow>, rows: seq<ProposalRow>, i: int, j: int)
    requires Meet(queue, rows, i, j)
    ensures 0 <= i < |queue| && 0 <= j < |rows|
  {
  }

  lemma MeetAtLast(queue: seq<QueueRow>, rows: seq<ProposalRow>, i: int, j: int)
    ensures Meet(queue, rows, i, j) ==>
      var id := queue[i].contentId;
      && id in QueueIds(queue) && id in ProposalIds(rows) && LastOf(QueueIds(queue), id) == i && LastOf(ProposalIds(rows), id) == j
  {
    var a, b := QueueIds(queue), ProposalIds(rows);
    assert forall k :: 0 <= k < |queue| ==> a[k] == queue[k].contentId;
    assert forall k :: 0 <= k < |rows| ==> b[k] == rows[k].contentId;
    hide QueueIds, ProposalIds, LastOf;
    if Meet(queue, rows, i, j) {
      assert a[i] in a && b[j] in b;
    }
  }

  lemma LastMeet(queue: seq<QueueRow>, rows: seq<ProposalRow>, id: string)
    requires id in QueueIds(queue) && id in ProposalIds(rows)
    ensures Meet(queue, rows, LastOf(QueueIds(queue), id), LastOf(ProposalIds(rows), id))
  {
    var a, b := QueueIds(queue), ProposalIds(rows);
    assert forall k :: 0 <= k < |queue| ==> a[k] == queue[k].contentId;
    assert forall k :: 0 <= k < |rows| ==> b[k] == rows[k].contentId;
    hide QueueIds, ProposalIds, LastOf;
  }

  /** A list of keys is decided exactly when each of them is. */
  lemma {:induction false} WhenKeysAreDecided(operator: string, approvedAt: string, keys: seq<string>, queue: seq<QueueRow>, rows: seq<ProposalRow>)
    requires forall id :: id in keys ==> id in QueueIds(queue) && id in ProposalIds(rows)
    ensures Decided(operator, approvedAt, keys, queue, rows).Ok? <==>
      forall id :: id in keys ==>
        DecideRow(operator, approvedAt, queue[LastOf(QueueIds(queue), id)], rows[LastOf(ProposalIds(rows), id)]).Ok?
    ensures Decided(operator, approvedAt, keys, queue, rows).Ok? ==>
      forall id :: id in keys ==>
        DecideRow(operator, approvedAt, queue[LastOf(QueueIds(queue), id)], rows[LastOf(ProposalIds(rows), id)]).value
        in Decided(operator, approvedAt, keys, queue, rows).value
  {
    hide DecideRow, QueueIds, ProposalIds, LastOf;
    if keys != [] {
      var front, last := keys[..|keys| - 1], keys[|keys| - 1];
      assert forall id :: id in keys <==> id in front || id == last by {
        assert keys == front + [last];
      }
      assert last in keys;
      WhenKeysAreDecided(operator, approvedAt, front, queue, rows);
    }
  }

  lemma WhenRowsAreDecided(operator: string, approvedAt: string, queue: seq<QueueRow>, rows: seq<ProposalRow>)
    requires forall id :: id in Keys(QueueIds(queue)) ==> id in QueueIds(queue) && id in ProposalIds(rows)
    ensures var r := Decided(operator, approvedAt, Keys(QueueIds(queue)), queue, rows);
      && (r.Ok? <==> AllMayDecide(queue, rows))
      && (r.Ok? ==> forall i, j :: Meet(queue, rows, i, j) ==> ApprovalOf(queue[i], rows[j], operator, approvedAt) in r.value)
  {
    var keys := Keys(QueueIds(queue));
    KeysAreDistinct(QueueIds(queue));
    WhenKeysAreDecided(operator, approvedAt, keys, queue, rows);
    hide Keys, QueueIds, ProposalIds, LastOf, MayDecide, Meet, DecideRow, Decided;
    forall i, j | Meet(queue, rows, i, j)
      ensures 0 <= i < |queue| && 0 <= j < |rows|
      ensures var r := Decided(operator, approvedAt, keys, queue, rows);
        r.Ok? ==> MayDecide(queue[i], rows[j]) && ApprovalOf(queue[i], rows[j], operator, approvedAt) in r.value
    {
      InRange(queue, rows, i, j);
      MeetAtLast(queue, rows, i, j);
      WhenRowIsDecided(operator, approvedAt, queue[i], rows[j]);
    }
    forall id | id in keys
      ensures AllMayDecide(queue, rows) ==>
        DecideRow(operator, approvedAt, queue[LastOf(QueueIds(queue), id)], rows[LastOf(ProposalIds(rows), id)]).Ok?
    {
      LastMeet(queue, rows, id);
      WhenRowIsDecided(operator, approvedAt, queue[LastOf(QueueIds(queue), id)], rows[LastOf(ProposalIds(rows), id)]);
    }
  }

  /** The proposal is hashed over its own content, ready, not yet approved, and made for this queue and its authority. */
  ghost predicate IsFor(proposal: ReviewProposal, queue: ReviewQueue, approvals: ApprovalSet) {
    && proposal.selfSha == OfProposal(proposal.body) && proposal.body.status == "PROPOSAL_READY_FOR_OPERATOR_REVIEW"
    && !proposal.body.approvalWritten && proposal.body.queueSha == OfQueueFile(queue)
    && proposal.body.handoff == queue.handoff && approvals.handoff == queue.handoff
  }

  /** The audit is hashed over its content and names who approved what, when, and with which result. */
  ghost predicate Audits(audit: ReviewAudit, operator: string, approvedAt: string, proposal: ReviewProposal, queue: ReviewQueue,
                         approved: ApprovalSet)
  {
    && audit.selfSha == OfAudit(audit.body)
    && audit.body.operator == operator && audit.body.approvedAt == approvedAt && audit.body.proposalFileSha == OfProposalFile(proposal)
    && audit.body.proposalSha == proposal.selfSha && audit.body.queueSha == OfQueueFile(queue)
    && audit.body.approvalsSha == OfApprovalsFile(approved)
  }

  /**
   * A proposal is accepted exactly when an operator is named, the proposal is for the queue and covers it, and each row may decide
   * its queue row. Then each of these decisions is written, under the authority of the queue, with the audit of it.
   */
  lemma WhenProposalIsAccepted(operator: string, approvedAt: string, proposal: ReviewProposal, queue: ReviewQueue, approvals: ApprovalSet)
    ensures var r := AppliedProposal(operator, approvedAt, proposal, queue, approvals);
      var rows := proposal.body.rows;
      && (r.Ok? <==>
            Strip(operator) != "" && IsFor(proposal, queue, approvals) && CoversQueue(queue.rows, rows) && AllMayDecide(queue.rows, rows))
      && (r.Ok? ==>
            && r.value.0.handoff == queue.handoff
            && (forall i, j :: Meet(queue.rows, rows, i, j) ==>
                  ApprovalOf(queue.rows[i], rows[j], Strip(operator), approvedAt) in r.value.0.rows)
            && Audits(r.value.1, Strip(operator), approvedAt, proposal, queue, r.value.0))
  {
    WhenItCovers(queue.rows, proposal.body.rows);
    hide Keys, QueueIds, ProposalIds, Covers, Meet, Decided, CoversQueue, AllMayDecide, Strip, ApprovalOf, EditedCount;
    if Covers(queue.rows, proposal.body.rows) {
      CoveredKeys(queue.rows, proposal.body.rows);
      WhenRowsAreDecided(Strip(operator), approvedAt, queue.rows, proposal.body.rows);
    }
  }

  // ----- A batch of them -----

  /** The label as it is put into a token: dots and hyphens become underscores. */
  predicate IsTokenLabel(written: string, release: string) {
    var given := if release == "" then "V22_1" else release;
    && |written| == |given|
    && forall i :: 0 <= i < |given| ==> written[i] == if given[i] == '.' || given[i] == '-' then '_' else given[i]
  }

  lemma {:induction false} UnderscoredAt(s: string, i: nat)
    requires i < |s|
    ensures Underscored(s)[i] == if s[i] == '.' || s[i] == '-' then '_' else s[i]
  {
    if i > 0 {
      UnderscoredAt(s[1..], i - 1);
    }
  }

  lemma LabelIs(release: string)
    ensures IsTokenLabel(TokenLabel(release), release)
  {
    var given := if release == "" then "V22_1" else release;
    forall i | 0 <= i < |given|
      ensures Underscored(given)[i] == if given[i] == '.' || given[i] == '-' then '_' else given[i]
    {
      UnderscoredAt(given, i);
    }
  }

  lemma OneLabel(a: string, b: string, release: string)
    requires IsTokenLabel(a, release) && IsTokenLabel(b, release)
    ensures a == b
  {
  }

  /** The token names the label of the index and the first digits of its hash. */
  predicate NamesIndex(digits: Digits, batch: Batch, token: string, written: string) {
    && IsTokenLabel(written, batch.body.releaseLabel)
    && Upper(Strip(token)) == "TRANSLATION_PROPOSALS_APPROVED_" + written + ("_" + Upper(digits(batch.selfSha)))
  }

  /**
   * An index is admitted exactly when it is hashed over its own content, awaits review and is not yet approved, the token names it,
   * operator and time are given, and the state is the one it was made from.
   */
  lemma WhenIndexIsAdmitted(digits: Digits, state: BatchState, batch: Batch, token: string, operator: string, approvedAt: string)
    ensures BatchRefusal(digits, state, batch, token, operator, approvedAt).None? <==>
      && batch.selfSha == OfBatch(batch.body) && batch.body.status == "TRANSLATION_OPERATOR_REVIEW_REQUIRED" && !batch.body.approvalWritten
      && (exists written :: NamesIndex(digits, batch, token, written))
      && Strip(operator) != "" && Strip(approvedAt) != "" && batch.body.stateSha == OfState(state)
  {
    var written := TokenLabel(batch.body.releaseLabel);
    LabelIs(batch.body.releaseLabel);
    hide Upper, Strip, TokenLabel, IsTokenLabel;
    if other :| NamesIndex(digits, batch, token, other) {
      OneLabel(other, written, batch.body.releaseLabel);
    }
    assert NamesIndex(digits, batch, token, written) <==>
      Upper(Strip(token)) == "TRANSLATION_PROPOSALS_APPROVED_" + written + ("_" + Upper(digits(batch.selfSha)));
  }

  /** What is read for a listed case. */
  ghost predicate Holds(files: CaseFiles, c: BatchCase, queue: ReviewQueue, proposal: ReviewProposal, approvals: ApprovalSet) {
    && Rollback.Lookup(files, c.queuePath) == Some(QueueFile(queue)) && Rollback.Lookup(files, c.proposalPath) == Some(ProposalFile(proposal))
    && Rollback.Lookup(files, Rollback.Path(Strip(c.caseId), Rollback.Approvals)) == Some(ApprovalsFile(approvals))
  }

  /**
   * A listed case is prepared exactly when it has an id, its files are in its own directory, readable and as they were listed, its
   * proposal is hashed over its own content, and its template carries no decision yet.
   */
  lemma WhenCaseIsPrepared(files: CaseFiles, c: BatchCase)
    ensures var r := PrepareCase(files, c);
      && (r.None? ==> exists queue, proposal, approvals :: Holds(files, c, queue, proposal, approvals))
      && (forall queue, proposal, approvals :: Holds(files, c, queue, proposal, approvals) ==>
            (r.None? <==>
               && Strip(c.caseId) != "" && c.queuePath.root == Strip(c.caseId) && c.proposalPath.root == Strip(c.caseId)
               && c.queueSha == OfQueueFile(queue) && c.proposalFileSha == OfProposalFile(proposal)
               && proposal.selfSha == OfProposal(proposal.body) && c.proposalSha == proposal.selfSha
               && !Phase3EndToEnd.CarriesDecision(approvals)))
  {
    hide Strip;
    var queue, proposal := ReadQueue(files, c.queuePath), ReadProposal(files, c.proposalPath);
    var approvals := ReadApprovals(files, Rollback.Path(Strip(c.caseId), Rollback.Approvals));
    if PrepareCase(files, c).None? {
      assert Holds(files, c, queue.value, proposal.value, approvals.value);
    }
  }

  /** The first case that is not prepared. */
  ghost predicate FirstUnprepared(files: CaseFiles, cases: seq<BatchCase>, k: int) {
    0 <= k < |cases| && PrepareCase(files, cases[k]).Some? && forall i :: 0 <= i < k ==> PrepareCase(files, cases[i]).None?
  }

  lemma {:induction false} PreparationIs(files: CaseFiles, cases: seq<BatchCase>)
    ensures Preparation(files, cases).None? <==> forall i :: 0 <= i < |cases| ==> PrepareCase(files, cases[i]).None?
    ensures Preparation(files, cases).Some? ==>
      exists k :: FirstUnprepared(files, cases, k) && Preparation(files, cases) == PrepareCase(files, cases[k])
  {
    hide PrepareCase;
    if cases != [] {
      var n := |cases| - 1;
      var front := cases[..n];
      PreparationIs(files, front);
      assert forall i :: 0 <= i < n ==> front[i] == cases[i];
      if Preparation(files, front).Some? {
        var k :| FirstUnprepared(files, front, k) && Preparation(files, front) == PrepareCase(files, front[k]);
        assert FirstUnprepared(files, cases, k);
      } else if Preparation(files, cases).Some? {
        assert FirstUnprepared(files, cases, n);
      }
    }
  }

  /** A batch is refused unless its index is admitted, every case prepared, and the cases are as many as the index counts. */
  lemma WhenBatchIsRefused(files: CaseFiles, digits: Digits, state: BatchState, batch: Batch, token: string, operator: string, approvedAt: string)
    ensures var refusal := Refusal(files, digits, state, batch, token, operator, approvedAt);
      var admitted := BatchRefusal(digits, state, batch, token, operator, approvedAt).None?;
      && (refusal.None? <==>
            && admitted && (forall i :: 0 <= i < |batch.body.cases| ==> PrepareCase(files, batch.body.cases[i]).None?)
            && |batch.body.cases| == batch.body.counts.cases)
      && (admitted && (forall i :: 0 <= i < |batch.body.cases| ==> PrepareCase(files, batch.body.cases[i]).None?) && refusal.Some? ==>
            refusal == Some(CountMismatch))
      && (admitted && (exists k :: FirstUnprepared(files, batch.body.cases, k)) ==>
            exists k :: FirstUnprepared(files, batch.body.cases, k) && refusal == PrepareCase(files, batch.body.cases[k]))
  {
    PreparationIs(files, batch.body.cases);
    hide BatchRefusal, PrepareCase, Preparation;
  }

  /** What applying a case reads: the listed proposal, and the queue and the template of its own directory. */
  ghost predicate Reads(files: CaseFiles, c: BatchCase, queue: ReviewQueue, proposal: ReviewProposal, approvals: ApprovalSet) {
    && Rollback.Lookup(files, Rollback.Path(Strip(c.caseId), Rollback.Queue)) == Some(QueueFile(queue))
    && Rollback.Lookup(files, c.proposalPath) == Some(ProposalFile(proposal))
    && Rollback.Lookup(files, Rollback.Path(Strip(c.caseId), Rollback.Approvals)) == Some(ApprovalsFile(approvals))
  }

  /** A case is applied exactly when its files can be read and its proposal is accepted; then both results are written. */
  lemma WhenCaseIsReviewed(files: CaseFiles, operator: string, approvedAt: string, c: BatchCase)
    ensures var r := ReviewCase(operator, approvedAt, c, files);
      && (r.Some? ==> exists queue, proposal, approvals :: Reads(files, c, queue, proposal, approvals))
      && (forall queue, proposal, approvals :: Reads(files, c, queue, proposal, approvals) ==>
            var applied := AppliedProposal(operator, approvedAt, proposal, queue, approvals);
            && (r.Some? <==> applied.Ok?)
            && (r.Some? ==> r.value == (ApprovalsFile(applied.value.0), AuditFile(applied.value.1))))
  {
    hide AppliedProposal, Strip;
    var queue := ReadQueue(files, Rollback.Path(Strip(c.caseId), Rollback.Queue));
    var proposal := ReadProposal(files, c.proposalPath);
    var approvals := ReadApprovals(files, Rollback.Path(Strip(c.caseId), Rollback.Approvals));
    if ReviewCase(operator, approvedAt, c, files).Some? {
      assert Reads(files, c, queue.value, proposal.value, approvals.value);
    }
  }

  // ----- Building the index -----

  lemma {:induction false} WhenRowsAreIndexed(files: CaseFiles, cases: seq<StateCase>)
    ensures IndexRows(files, cases).Ok? <==> forall c :: c in cases ==> IndexCase(files, c).Ok?
    ensures IndexRows(files, cases).Ok? ==> (IndexRows(files, cases).value == [] <==> forall c :: c in cases ==> IndexCase(files, c).value.None?)
  {
    hide IndexCase;
    if cases != [] {
      var front, last := cases[..|cases| - 1], cases[|cases| - 1];
      WhenRowsAreIndexed(files, front);
      assert forall c :: c in cases <==> c in front || c == last by {
        assert cases == front + [last];
      }
    }
  }

  /** A case keeps no index from being built when it was approved as having no text, or is listed; a missing file is an error. */
  predicate Indexable(files: CaseFiles, c: StateCase) {
    c.status == "NO_TEXT_OPERATOR_APPROVED" || (c.status == "WAITING_TRANSLATION_OPERATOR_REVIEW" && IndexCase(files, c).Ok?)
  }

  lemma WhenCaseIsIndexable(files: CaseFiles, c: StateCase)
    ensures IndexCase(files, c).Ok? <==> Indexable(files, c)
    ensures IndexCase(files, c).Ok? ==> (IndexCase(files, c).value.Some? <==> c.status == "WAITING_TRANSLATION_OPERATOR_REVIEW")
  {
    hide CheckCase, Strip;
  }

  /**
   * An index is built exactly when the state has cases, each of them without text or listed, and there is a date: one given, or that
   * of a waiting case.
   */
  lemma WhenIndexIsBuilt(files: CaseFiles, state: BatchState, ordering: Ordering, release: string, generatedAt: string)
    ensures var r := IndexedBatch(files, state, ordering, release, generatedAt);
      && (r.Ok? <==>
            && state.cases != [] && (forall c :: c in state.cases ==> Indexable(files, c))
            && (generatedAt != "" || exists c :: c in state.cases && c.status == "WAITING_TRANSLATION_OPERATOR_REVIEW"))
      && (state.cases == [] ==> r == Err(NoCases))
  {
    var ordered := Sort(state.cases, ordering.before);
    WhenRowsAreIndexed(files, ordered);
    forall c
      ensures c in ordered <==> c in state.cases
      ensures IndexCase(files, c).Ok? <==> Indexable(files, c)
      ensures IndexCase(files, c).Ok? ==> (IndexCase(files, c).value.Some? <==> c.status == "WAITING_TRANSLATION_OPERATOR_REVIEW")
    {
      SameMembers(state.cases, ordering.before, c);
      WhenCaseIsIndexable(files, c);
    }
    hide IndexRows, IndexCase, Indexable, Sort, TotalsOf;
  }
}
