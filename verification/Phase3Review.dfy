/** The Phase 3 language-review proposal of one case, and the operator approvals it turns into. */
module Phase3Review {
  import opened Prelude
  import opened Text
  import opened Keyed

  datatype QueueRow = QueueRow(contentId: string, candidate: string, reviewHash: string, flags: nat)

  datatype ReviewQueue = ReviewQueue(handoff: string, rows: seq<QueueRow>, failed: int)

  datatype ProposalRow = ProposalRow(contentId: string, recommendation: string, reviewHash: string, candidate: string, proposed: string)

  datatype Summary = Summary(objects: int, edits: int, approvals: int, flags: int)

  datatype ProposalBody = ProposalBody(status: string, approvalWritten: bool, author: string, createdAt: string, handoff: string,
                                       queueSha: Hash, summary: Summary, rows: seq<ProposalRow>)

  datatype ReviewProposal = ReviewProposal(body: ProposalBody, selfSha: Hash)

  datatype ApprovalRow = ApprovalRow(contentId: string, decision: string, reviewHash: string, text: string,
                                     reviewer: string, reviewedAt: string)

  datatype ApprovalSet = ApprovalSet(handoff: string, rows: seq<ApprovalRow>)

  datatype Counts = Counts(objects: nat, edited: nat, kept: int)

  datatype AuditBody = AuditBody(operator: string, approvedAt: string, proposalFileSha: Hash, proposalSha: Hash, queueSha: Hash,
                                 approvalsSha: Hash, counts: Counts)

  datatype ReviewAudit = ReviewAudit(body: AuditBody, selfSha: Hash)

  /** Digests are constructors over what was digested; any other stored string is kept as written. */
  datatype Hash =
    | OfQueueFile(queue: ReviewQueue) | OfProposal(proposalBody: ProposalBody) | OfProposalFile(proposal: ReviewProposal)
    | OfApprovalsFile(approvals: ApprovalSet) | OfAudit(auditBody: AuditBody) | Plain(text: string)

  datatype ReviewError =
    | EmptyQueue | InvalidQueueIds | UnknownEdits | MissingCandidateOrHash(contentId: string) | InvalidText(contentId: string)
    | ProtectedTokens(contentId: string) | MissingAuthor
    | MissingOperator | InvalidSelfHash | NotReviewable | AlreadyApproved | StaleQueue | AuthorityMismatch | NotCovering
    | InvalidRecommendation(contentId: string) | ContentDrift(contentId: string) | ApproveChanged(contentId: string)
    | EditUnchanged(contentId: string)

  const READY := "PROPOSAL_READY_FOR_OPERATOR_REVIEW"

  const APPROVE := "APPROVE"

  const EDIT := "EDIT"

  function DigestLength(hash: Hash): nat {
    match hash
    case Plain(text) => |text|
    case _ => 64
  }

  predicate SelfHashed(p: ReviewProposal) { DigestLength(p.selfSha) == 64 && p.selfSha == OfProposal(p.body) }

  function QueueIds(rows: seq<QueueRow>): (ids: seq<string>)
    ensures |ids| == |rows|
  {
    Map(rows, (row: QueueRow) => row.contentId)
  }

  function ProposalIds(rows: seq<ProposalRow>): (ids: seq<string>)
    ensures |ids| == |rows|
  {
    Map(rows, (row: ProposalRow) => row.contentId)
  }

  function ApprovalIds(rows: seq<ApprovalRow>): (ids: seq<string>)
    ensures |ids| == |rows|
  {
    Map(rows, (row: ApprovalRow) => row.contentId)
  }

  // ----- Building -----

  /** The checks of proposed Vietnamese text that live in other packages. */
  datatype Language = Language(containsCjk: string -> bool, preservesTokens: (QueueRow, string, string) -> bool)

  type Edits = map<string, string>

  function ProposedText(row: QueueRow, edits: Edits): string {
    var edit := if row.contentId in edits then edits[row.contentId] else "";
    Strip(if edit != "" then edit else Strip(row.candidate))
  }

  function DraftRow(language: Language, row: QueueRow, edits: Edits): Result<ProposalRow, ReviewError> {
    var candidate := Strip(row.candidate);
    var reviewHash := Strip(row.reviewHash);
    var proposed := ProposedText(row, edits);
    if candidate == "" || |reviewHash| != 64 then Err(MissingCandidateOrHash(row.contentId))
    else if proposed == "" || language.containsCjk(proposed) then Err(InvalidText(row.contentId))
    else if !language.preservesTokens(row, candidate, proposed) then Err(ProtectedTokens(row.contentId))
    else Ok(ProposalRow(row.contentId, if proposed != candidate then EDIT else APPROVE, reviewHash, candidate, proposed))
  }

  function Drafts(language: Language, rows: seq<QueueRow>, edits: Edits): Result<seq<ProposalRow>, ReviewError> {
    if rows == [] then Ok([])
    else
      match Drafts(language, rows[..|rows| - 1], edits)
      case Err(e) => Err(e)
      case Ok(earlier) =>
        match DraftRow(language, rows[|rows| - 1], edits)
        case Err(e) => Err(e)
        case Ok(row) => Ok(earlier + [row])
  }

  function EditCount(rows: seq<ProposalRow>): nat {
    if rows == [] then 0 else EditCount(rows[..|rows| - 1]) + (if rows[|rows| - 1].recommendation == EDIT then 1 else 0)
  }

  function FlagCount(rows: seq<QueueRow>): nat {
    if rows == [] then 0 else FlagCount(rows[..|rows| - 1]) + rows[|rows| - 1].flags
  }

  function Assembled(queue: ReviewQueue, rows: seq<ProposalRow>, edits: nat, author: string, createdAt: string): ReviewProposal {
    var body := ProposalBody(READY, false, Strip(author), createdAt, queue.handoff, OfQueueFile(queue),
                             Summary(|rows|, edits, |rows| - edits, FlagCount(queue.rows)), rows);
    ReviewProposal(body, OfProposal(body))
  }

  function BuiltProposal(language: Language, queue: ReviewQueue, edits: Edits, author: string, createdAt: string)
    : Result<ReviewProposal, ReviewError>
  {
    var ids := QueueIds(queue.rows);
    if queue.rows == [] then Err(EmptyQueue)
    else if |Keys(ids)| != |ids| || "" in ids then Err(InvalidQueueIds)
    else if exists id :: id in edits.Keys && id !in ids then Err(UnknownEdits)
    else
      match Drafts(language, queue.rows, edits)
      case Err(e) => Err(e)
      case Ok(rows) =>
        if Strip(author) == "" then Err(MissingAuthor) else Ok(Assembled(queue, rows, EditCount(rows), author, createdAt))
  }

  method BuildReviewProposal(language: Language, queue: ReviewQueue, edits: Edits, author: string, createdAt: string)
    returns (r: Result<ReviewProposal, ReviewError>)
    ensures r == BuiltProposal(language, queue, edits, author, createdAt)
  {
    hide Strip, Drafts, Keys, EditCount, Assembled, QueueIds;
    var ids := QueueIds(queue.rows);
    if queue.rows == [] {
      return Err(EmptyQueue);
    }
    if |Keys(ids)| != |ids| || "" in ids {
      return Err(InvalidQueueIds);
    }
    if exists id :: id in edits.Keys && id !in ids {
      return Err(UnknownEdits);
    }
    var drafted, edited := DraftAll(language, queue.rows, edits);
    if drafted.Err? {
      return Err(drafted.error);
    }
    if Strip(author) == "" {
      return Err(MissingAuthor);
    }
    r := Ok(Assembled(queue, drafted.value, edited, author, createdAt));
  }

  method DraftAll(language: Language, queue: seq<QueueRow>, edits: Edits) returns (r: Result<seq<ProposalRow>, ReviewError>, edited: nat)
    ensures r == Drafts(language, queue, edits)
    ensures r.Ok? ==> edited == EditCount(r.value)
  {
    hide DraftRow;
    var rows: seq<ProposalRow> := [];
    edited := 0;
    var i := 0;
    while i < |queue|
      invariant 0 <= i <= |queue|
      invariant Drafts(language, queue[..i], edits) == Ok(rows)
      invariant edited == EditCount(rows)
    {
      assert queue[..i + 1][..i] == queue[..i];
      var drafted := DraftRow(language, queue[i], edits);
      if drafted.Err? {
        DraftsFail(language, queue, edits, i + 1);
        return Err(drafted.error), edited;
      }
      if drafted.value.recommendation == EDIT {
        edited := edited + 1;
      }
      rows := rows + [drafted.value];
      i := i + 1;
    }
    assert queue[..i] == queue;
    r := Ok(rows);
  }

  lemma DraftsFail(language: Language, rows: seq<QueueRow>, edits: Edits, n: nat)
    requires n <= |rows| && Drafts(language, rows[..n], edits).Err?
    ensures Drafts(language, rows, edits) == Drafts(language, rows[..n], edits)
  {
    hide DraftRow;
    PrefixFails(t => Drafts(language, t, edits), rows, n);
  }

  // ----- Applying -----

  function DecideRow(operator: string, approvedAt: string, q: QueueRow, p: ProposalRow): Result<ApprovalRow, ReviewError> {
    var recommendation := Upper(p.recommendation);
    var candidate := Strip(q.candidate);
    var proposed := Strip(p.proposed);
    if recommendation != APPROVE && recommendation != EDIT then Err(InvalidRecommendation(q.contentId))
    else if p.reviewHash != q.reviewHash || Strip(p.candidate) != candidate || proposed == "" then Err(ContentDrift(q.contentId))
    else if recommendation == APPROVE && proposed != candidate then Err(ApproveChanged(q.contentId))
    else if recommendation == EDIT && proposed == candidate then Err(EditUnchanged(q.contentId))
    else Ok(ApprovalRow(q.contentId, recommendation, q.reviewHash, proposed, operator, approvedAt))
  }

  function Decided(operator: string, approvedAt: string, keys: seq<string>, queue: seq<QueueRow>, proposal: seq<ProposalRow>)
    : Result<seq<ApprovalRow>, ReviewError>
    requires forall id :: id in keys ==> id in QueueIds(queue) && id in ProposalIds(proposal)
  {
    if keys == [] then Ok([])
    else
      var id := keys[|keys| - 1];
      match Decided(operator, approvedAt, keys[..|keys| - 1], queue, proposal)
      case Err(e) => Err(e)
      case Ok(earlier) =>
        match DecideRow(operator, approvedAt, queue[LastOf(QueueIds(queue), id)], proposal[LastOf(ProposalIds(proposal), id)])
        case Err(e) => Err(e)
        case Ok(row) => Ok(earlier + [row])
  }

  function EditedCount(rows: seq<ApprovalRow>): nat {
    if rows == [] then 0 else EditedCount(rows[..|rows| - 1]) + (if rows[|rows| - 1].decision == EDIT then 1 else 0)
  }

  /** Same ids on both sides, at least one, and none of them empty. */
  predicate Covers(queue: seq<QueueRow>, proposal: seq<ProposalRow>) {
    && queue != [] && "" !in QueueIds(queue)
    && Elements(Keys(QueueIds(queue))) == Elements(Keys(ProposalIds(proposal)))
  }

  lemma CoveredKeys(queue: seq<QueueRow>, proposal: seq<ProposalRow>)
    requires Covers(queue, proposal)
    ensures forall id :: id in Keys(QueueIds(queue)) ==> id in QueueIds(queue) && id in ProposalIds(proposal)
  {
    KeysAreDistinct(QueueIds(queue));
    KeysAreDistinct(ProposalIds(proposal));
    forall id | id in Keys(QueueIds(queue))
      ensures id in ProposalIds(proposal)
    {
      assert id in Elements(Keys(QueueIds(queue)));
      assert id in Elements(Keys(ProposalIds(proposal)));
    }
  }

  /** What must hold before the rows are looked at. */
  function Admission(operator: string, proposal: ReviewProposal, queue: ReviewQueue, approvals: ApprovalSet): Option<ReviewError> {
    if Strip(operator) == "" then Some(MissingOperator)
    else if !SelfHashed(proposal) then Some(InvalidSelfHash)
    else if proposal.body.status != READY then Some(NotReviewable)
    else if proposal.body.approvalWritten then Some(AlreadyApproved)
    else if proposal.body.queueSha != OfQueueFile(queue) then Some(StaleQueue)
    else if proposal.body.handoff != queue.handoff || approvals.handoff != queue.handoff then Some(AuthorityMismatch)
    else if !Covers(queue.rows, proposal.body.rows) then Some(NotCovering)
    else None
  }

  function AuditFor(operator: string, approvedAt: string, proposal: ReviewProposal, queue: ReviewQueue, approved: ApprovalSet, edited: nat)
    : ReviewAudit
  {
    var body := AuditBody(operator, approvedAt, OfProposalFile(proposal), proposal.selfSha, OfQueueFile(queue),
                          OfApprovalsFile(approved), Counts(|approved.rows|, edited, |approved.rows| - edited));
    ReviewAudit(body, OfAudit(body))
  }

  function AppliedProposal(operator: string, approvedAt: string, proposal: ReviewProposal, queue: ReviewQueue, approvals: ApprovalSet)
    : Result<(ApprovalSet, ReviewAudit), ReviewError>
  {
    var refusal := Admission(operator, proposal, queue, approvals);
    if refusal.Some? then Err(refusal.value)
    else
      CoveredKeys(queue.rows, proposal.body.rows);
      match Decided(Strip(operator), approvedAt, Keys(QueueIds(queue.rows)), queue.rows, proposal.body.rows)
      case Err(e) => Err(e)
      case Ok(rows) =>
        var approved := ApprovalSet(queue.handoff, rows);
        Ok((approved, AuditFor(Strip(operator), approvedAt, proposal, queue, approved, EditedCount(rows))))
  }

  method ApplyReviewProposal(operator: string, approvedAt: string, proposal: ReviewProposal, queue: ReviewQueue, approvals: ApprovalSet)
    returns (r: Result<(ApprovalSet, ReviewAudit), ReviewError>)
    ensures r == AppliedProposal(operator, approvedAt, proposal, queue, approvals)
  {
    hide Strip, Decided, EditedCount, Keys, Admission, QueueIds, ProposalIds, AuditFor;
    var refusal := Admission(operator, proposal, queue, approvals);
    if refusal.Some? {
      return Err(refusal.value);
    }
    AdmittedCovers(operator, proposal, queue, approvals);
    CoveredKeys(queue.rows, proposal.body.rows);
    var rows, edited := DecideAll(Strip(operator), approvedAt, Keys(QueueIds(queue.rows)), queue.rows, proposal.body.rows);
    if rows.Err? {
      return Err(rows.error);
    }
    var approved := ApprovalSet(queue.handoff, rows.value);
    r := Ok((approved, AuditFor(Strip(operator), approvedAt, proposal, queue, approved, edited)));
  }

  method DecideAll(operator: string, approvedAt: string, keys: seq<string>, queue: seq<QueueRow>, proposal: seq<ProposalRow>)
    returns (r: Result<seq<ApprovalRow>, ReviewError>, edited: nat)
    requires forall id :: id in keys ==> id in QueueIds(queue) && id in ProposalIds(proposal)
    ensures r == Decided(operator, approvedAt, keys, queue, proposal)
    ensures r.Ok? ==> edited == EditedCount(r.value)
  {
    hide DecideRow, QueueIds, ProposalIds;
    var rows: seq<ApprovalRow> := [];
    edited := 0;
    var i := 0;
    while i < |keys|
      invariant 0 <= i <= |keys|
      invariant Decided(operator, approvedAt, keys[..i], queue, proposal) == Ok(rows)
      invariant edited == EditedCount(rows)
    {
      assert keys[..i + 1][..i] == keys[..i];
      var decided := DecideRow(operator, approvedAt, queue[LastOf(QueueIds(queue), keys[i])],
                               proposal[LastOf(ProposalIds(proposal), keys[i])]);
      if decided.Err? {
        DecidedFails(operator, approvedAt, keys, queue, proposal, i + 1);
        return Err(decided.error), edited;
      }
      if decided.value.decision == EDIT {
        edited := edited + 1;
      }
      rows := rows + [decided.value];
      i := i + 1;
    }
    assert keys[..i] == keys;
    r := Ok(rows);
  }

  lemma AdmittedCovers(operator: string, proposal: ReviewProposal, queue: ReviewQueue, approvals: ApprovalSet)
    requires Admission(operator, proposal, queue, approvals).None?
    ensures Covers(queue.rows, proposal.body.rows)
  {
  }

  lemma {:induction false} DecidedFails(operator: string, approvedAt: string, keys: seq<string>, queue: seq<QueueRow>,
                                        proposal: seq<ProposalRow>, n: nat)
    requires forall id :: id in keys ==> id in QueueIds(queue) && id in ProposalIds(proposal)
    requires n <= |keys| && Decided(operator, approvedAt, keys[..n], queue, proposal).Err?
    ensures Decided(operator, approvedAt, keys, queue, proposal) == Decided(operator, approvedAt, keys[..n], queue, proposal)
  {
    hide DecideRow;
    if n < |keys| {
      assert keys[..|keys| - 1][..n] == keys[..n];
      DecidedFails(operator, approvedAt, keys[..|keys| - 1], queue, proposal, n);
    } else {
      assert keys[..n] == keys;
    }
  }

  // ----- What an accepted application means -----

  /** A decided row keeps the id and hash of its queue row and approves exactly the unchanged candidate. */
  predicate DecidesRow(q: QueueRow, p: ProposalRow, a: ApprovalRow) {
    && a.contentId == q.contentId && a.reviewHash == q.reviewHash
    && a.text == Strip(p.proposed) && a.text != ""
    && (a.decision == APPROVE <==> a.text == Strip(q.candidate))
    && (a.decision == EDIT <==> a.text != Strip(q.candidate))
  }

  lemma {:induction false} DecidedRows(operator: string, approvedAt: string, keys: seq<string>, queue: seq<QueueRow>,
                                       proposal: seq<ProposalRow>, i: nat)
    requires forall id :: id in keys ==> id in QueueIds(queue) && id in ProposalIds(proposal)
    requires Decided(operator, approvedAt, keys, queue, proposal).Ok? && i < |keys|
    ensures var rows := Decided(operator, approvedAt, keys, queue, proposal).value;
      && |rows| == |keys|
      && DecideRow(operator, approvedAt, queue[LastOf(QueueIds(queue), keys[i])],
                   proposal[LastOf(ProposalIds(proposal), keys[i])]) == Ok(rows[i])
  {
    hide DecideRow;
    if i < |keys| - 1 {
      DecidedRows(operator, approvedAt, keys[..|keys| - 1], queue, proposal, i);
    } else if |keys| > 1 {
      DecidedRows(operator, approvedAt, keys[..|keys| - 1], queue, proposal, 0);
    }
  }

  lemma DecideRowDecides(operator: string, approvedAt: string, q: QueueRow, p: ProposalRow)
    ensures var r := DecideRow(operator, approvedAt, q, p);
      r.Ok? ==> DecidesRow(q, p, r.value) && r.value.reviewer == operator && r.value.reviewedAt == approvedAt
  {
  }

  /**
   * Whatever proposal was accepted, the approvals name every id of the queue exactly once, each row decides its queue row
   * with the proposal's text, and the audit counts the rows and the edits.
   */
  lemma AcceptedProposalCovers(operator: string, approvedAt: string, proposal: ReviewProposal, queue: ReviewQueue, approvals: ApprovalSet)
    requires AppliedProposal(operator, approvedAt, proposal, queue, approvals).Ok?
    ensures var (approved, audit) := AppliedProposal(operator, approvedAt, proposal, queue, approvals).value;
      var queueIds, proposalIds := QueueIds(queue.rows), ProposalIds(proposal.body.rows);
      && |approved.rows| > 0 && Distinct(ApprovalIds(approved.rows))
      && (forall id :: id in ApprovalIds(approved.rows) <==> id in queueIds)
      && (forall i :: 0 <= i < |approved.rows| ==>
            && approved.rows[i].contentId in queueIds && approved.rows[i].contentId in proposalIds
            && DecidesRow(queue.rows[LastOf(queueIds, approved.rows[i].contentId)],
                          proposal.body.rows[LastOf(proposalIds, approved.rows[i].contentId)], approved.rows[i]))
      && audit.body.counts == Counts(|approved.rows|, EditedCount(approved.rows), |approved.rows| - EditedCount(approved.rows))
  {
    hide DecideRow, DecidesRow, Keys, Decided, EditedCount, Strip, QueueIds, ProposalIds, ApprovalIds;
    var queueIds := QueueIds(queue.rows);
    var keys := Keys(queueIds);
    KeysAreDistinct(queueIds);
    CoveredKeys(queue.rows, proposal.body.rows);
    assert queueIds[0] in queueIds;
    assert keys[0] in keys;
    var approved := AppliedProposal(operator, approvedAt, proposal, queue, approvals).value.0;
    forall i | 0 <= i < |keys|
      ensures |approved.rows| == |keys| && approved.rows[i].contentId == keys[i]
      ensures DecidesRow(queue.rows[LastOf(queueIds, keys[i])],
                         proposal.body.rows[LastOf(ProposalIds(proposal.body.rows), keys[i])], approved.rows[i])
    {
      DecidedAt(Strip(operator), approvedAt, keys, queue.rows, proposal.body.rows, i);
    }
    IdsAre(approved.rows, keys);
  }

  lemma DecidedAt(operator: string, approvedAt: string, keys: seq<string>, queue: seq<QueueRow>, proposal: seq<ProposalRow>, i: nat)
    requires forall id :: id in keys ==> id in QueueIds(queue) && id in ProposalIds(proposal)
    requires Decided(operator, approvedAt, keys, queue, proposal).Ok? && i < |keys|
    ensures var rows := Decided(operator, approvedAt, keys, queue, proposal).value;
      && |rows| == |keys| && rows[i].contentId == keys[i]
      && DecidesRow(queue[LastOf(QueueIds(queue), keys[i])], proposal[LastOf(ProposalIds(proposal), keys[i])], rows[i])
  {
    hide DecideRow, Decided, Strip;
    DecidedRows(operator, approvedAt, keys, queue, proposal, i);
    DecideRowDecides(operator, approvedAt, queue[LastOf(QueueIds(queue), keys[i])], proposal[LastOf(ProposalIds(proposal), keys[i])]);
  }

  lemma IdsAre(rows: seq<ApprovalRow>, keys: seq<string>)
    requires |rows| == |keys| && forall i :: 0 <= i < |rows| ==> rows[i].contentId == keys[i]
    ensures ApprovalIds(rows) == keys
  {
  }

  // ----- Build and apply agree -----

  /** Row `i` of the proposal was drafted from row `i` of the queue. */
  predicate DraftOf(q: QueueRow, p: ProposalRow) {
    && p.contentId == q.contentId && p.reviewHash == Strip(q.reviewHash)
    && p.candidate == Strip(q.candidate) && p.proposed != "" && Strip(p.proposed) == p.proposed
    && p.recommendation == if p.proposed != p.candidate then EDIT else APPROVE
  }

  predicate Pairs(queue: seq<QueueRow>, proposal: seq<ProposalRow>) {
    |queue| == |proposal| && forall i :: 0 <= i < |queue| ==> DraftOf(queue[i], proposal[i])
  }

  /** Everything a built proposal promises about its queue. */
  ghost predicate BuiltFor(queue: ReviewQueue, proposal: ReviewProposal) {
    && SelfHashed(proposal) && proposal.body.status == READY && !proposal.body.approvalWritten
    && proposal.body.queueSha == OfQueueFile(queue) && proposal.body.handoff == queue.handoff
    && queue.rows != [] && Distinct(QueueIds(queue.rows)) && "" !in QueueIds(queue.rows)
    && Pairs(queue.rows, proposal.body.rows)
    && proposal.body.summary == Summary(|queue.rows|, EditCount(proposal.body.rows), |queue.rows| - EditCount(proposal.body.rows),
                                        FlagCount(queue.rows))
  }

  lemma DraftRowDrafts(language: Language, row: QueueRow, edits: Edits)
    ensures var r := DraftRow(language, row, edits); r.Ok? ==> DraftOf(row, r.value)
  {
    StripIsIdempotent(if row.contentId in edits && edits[row.contentId] != "" then edits[row.contentId] else Strip(row.candidate));
    hide Strip;
  }

  lemma {:induction false} DraftsAre(language: Language, rows: seq<QueueRow>, edits: Edits)
    requires Drafts(language, rows, edits).Ok?
    ensures |Drafts(language, rows, edits).value| == |rows|
    ensures forall i :: 0 <= i < |rows| ==> DraftOf(rows[i], Drafts(language, rows, edits).value[i])
  {
    hide DraftRow, DraftOf;
    if rows != [] {
      DraftsAre(language, rows[..|rows| - 1], edits);
      DraftRowDrafts(language, rows[|rows| - 1], edits);
    }
  }

  /** The text an operator reads for a queue row: the trimmed edit where there is one, else the trimmed candidate. */
  predicate Chooses(q: QueueRow, edits: Edits, text: string) {
    && (q.contentId in edits && edits[q.contentId] != "" ==> text == Strip(edits[q.contentId]))
    && (!(q.contentId in edits && edits[q.contentId] != "") ==> text == Strip(q.candidate))
  }

  /** A row with a candidate, a full hash, and a chosen text without ideographs that keeps the protected tokens. */
  ghost predicate Proposable(language: Language, q: QueueRow, edits: Edits) {
    && Strip(q.candidate) != "" && |Strip(q.reviewHash)| == 64
    && forall text :: Chooses(q, edits, text) ==>
         text != "" && !language.containsCjk(text) && language.preservesTokens(q, Strip(q.candidate), text)
  }

  lemma WhenRowIsDrafted(language: Language, q: QueueRow, edits: Edits)
    ensures var r := DraftRow(language, q, edits);
      (r.Ok? <==> Proposable(language, q, edits)) && (r.Ok? ==> Chooses(q, edits, r.value.proposed))
  {
    StripIsIdempotent(q.candidate);
    var text := ProposedText(q, edits);
    hide Strip;
    assert Chooses(q, edits, text) && forall other :: Chooses(q, edits, other) ==> other == text;
  }

  lemma {:induction false} WhenRowsAreDrafted(language: Language, rows: seq<QueueRow>, edits: Edits)
    ensures var r := Drafts(language, rows, edits);
      && (r.Ok? <==> forall i :: 0 <= i < |rows| ==> Proposable(language, rows[i], edits))
      && (r.Ok? ==> |r.value| == |rows| && forall i :: 0 <= i < |rows| ==> Chooses(rows[i], edits, r.value[i].proposed))
  {
    hide DraftRow, Proposable, Chooses;
    if rows != [] {
      WhenRowsAreDrafted(language, rows[..|rows| - 1], edits);
      WhenRowIsDrafted(language, rows[|rows| - 1], edits);
    }
  }

  /** Every row of the proposal shows the text chosen for its queue row. */
  predicate ShowsChosen(queue: ReviewQueue, edits: Edits, proposal: ReviewProposal) {
    |proposal.body.rows| == |queue.rows| && forall i :: 0 <= i < |queue.rows| ==> Chooses(queue.rows[i], edits, proposal.body.rows[i].proposed)
  }

  /** One for a row whose text is not the candidate. */
  function Changed(row: ProposalRow): int { if row.proposed != row.candidate then 1 else 0 }

  lemma {:induction false} EditsAreChanges(queue: seq<QueueRow>, rows: seq<ProposalRow>)
    requires Pairs(queue, rows)
    ensures EditCount(rows) == Total(rows, Changed)
  {
    if rows != [] {
      EditsAreChanges(queue[..|queue| - 1], rows[..|rows| - 1]);
      assert DraftOf(queue[|queue| - 1], rows[|rows| - 1]);
      TotalStep(rows, Changed);
    }
  }

  function Flags(row: QueueRow): int { row.flags }

  lemma {:induction false} FlagsAreSummed(rows: seq<QueueRow>)
    ensures FlagCount(rows) == Total(rows, Flags)
  {
    if rows != [] {
      FlagsAreSummed(rows[..|rows| - 1]);
      TotalStep(rows, Flags);
    }
  }

  /**
   * A built proposal covers its queue row by row with the chosen texts, is self-hashed, bound to the queue and unapproved, and
   * its summary counts the rows, the changed texts, the unchanged ones and the flags.
   */
  lemma BuildPromises(language: Language, queue: ReviewQueue, edits: Edits, author: string, createdAt: string)
    requires BuiltProposal(language, queue, edits, author, createdAt).Ok?
    ensures var proposal := BuiltProposal(language, queue, edits, author, createdAt).value;
      && BuiltFor(queue, proposal) && ShowsChosen(queue, edits, proposal)
      && proposal.body.author == Strip(author) && proposal.body.createdAt == createdAt
      && proposal.body.summary == Summary(|queue.rows|, Total(proposal.body.rows, Changed),
                                          |queue.rows| - Total(proposal.body.rows, Changed), Total(queue.rows, Flags))
  {
    hide Drafts, DraftOf, Keys, Strip, QueueIds, Chooses, EditCount, FlagCount, Total;
    DraftsAre(language, queue.rows, edits);
    WhenRowsAreDrafted(language, queue.rows, edits);
    FullKeysAreDistinct(QueueIds(queue.rows));
    EditsAreChanges(queue.rows, Drafts(language, queue.rows, edits).value);
    FlagsAreSummed(queue.rows);
  }

  /**
   * The build succeeds exactly for a non-empty queue of distinct, non-empty ids, edits of listed ids only, a named author, and
   * rows that can all be proposed. Of what is wrong the earliest in that order is reported, except that rows come before the
   * author.
   */
  lemma WhenProposalIsBuilt(language: Language, queue: ReviewQueue, edits: Edits, author: string, createdAt: string)
    ensures var r := BuiltProposal(language, queue, edits, author, createdAt);
      var ids := QueueIds(queue.rows);
      var cleanIds, known := Distinct(ids) && "" !in ids, forall id :: id in edits ==> id in ids;
      var proposable := forall i :: 0 <= i < |queue.rows| ==> Proposable(language, queue.rows[i], edits);
      && (r.Ok? <==> queue.rows != [] && cleanIds && known && proposable && Strip(author) != "")
      && (queue.rows == [] ==> r == Err(EmptyQueue))
      && (queue.rows != [] && !cleanIds ==> r == Err(InvalidQueueIds))
      && (queue.rows != [] && cleanIds && !known ==> r == Err(UnknownEdits))
      && (queue.rows != [] && cleanIds && known && proposable && Strip(author) == "" ==> r == Err(MissingAuthor))
  {
    hide Drafts, Keys, Strip, QueueIds, Proposable, EditCount, FlagCount;
    WhenRowsAreDrafted(language, queue.rows, edits);
    FullKeysAreDistinct(QueueIds(queue.rows));
  }

  /** The approval a drafted row leads to. */
  function ApprovalOf(operator: string, approvedAt: string, q: QueueRow, p: ProposalRow): ApprovalRow {
    ApprovalRow(q.contentId, p.recommendation, q.reviewHash, p.proposed, operator, approvedAt)
  }

  /** A drafted row is accepted exactly when its queue row stores the review hash without surrounding blanks. */
  lemma DraftIsAccepted(operator: string, approvedAt: string, q: QueueRow, p: ProposalRow)
    requires DraftOf(q, p)
    ensures var r := DecideRow(operator, approvedAt, q, p);
      (r.Ok? <==> Stripped(q.reviewHash)) && (r.Ok? ==> r.value == ApprovalOf(operator, approvedAt, q, p))
  {
    hide Strip, Upper, Stripped;
    StripIsIdempotent(q.candidate);
    StripIsIdempotent(q.reviewHash);
  }

  lemma SameIds(queue: seq<QueueRow>, proposal: seq<ProposalRow>)
    requires Pairs(queue, proposal)
    ensures QueueIds(queue) == ProposalIds(proposal)
  {
  }

  predicate AllStripped(queue: seq<QueueRow>) {
    forall i :: 0 <= i < |queue| ==> Stripped(queue[i].reviewHash)
  }

  function ApprovalsOf(operator: string, approvedAt: string, queue: seq<QueueRow>, proposal: seq<ProposalRow>): seq<ApprovalRow>
    requires |queue| == |proposal|
  {
    if queue == [] then []
    else
      ApprovalsOf(operator, approvedAt, queue[..|queue| - 1], proposal[..|proposal| - 1])
      + [ApprovalOf(operator, approvedAt, queue[|queue| - 1], proposal[|proposal| - 1])]
  }

  lemma {:induction false} ApprovalsAre(operator: string, approvedAt: string, queue: seq<QueueRow>, proposal: seq<ProposalRow>)
    requires |queue| == |proposal|
    ensures var rows := ApprovalsOf(operator, approvedAt, queue, proposal);
      |rows| == |queue| && forall i :: 0 <= i < |queue| ==> rows[i] == ApprovalOf(operator, approvedAt, queue[i], proposal[i])
  {
    hide ApprovalOf;
    if queue != [] {
      ApprovalsAre(operator, approvedAt, queue[..|queue| - 1], proposal[..|proposal| - 1]);
    }
  }

  lemma {:induction false} EditsAreKept(operator: string, approvedAt: string, queue: seq<QueueRow>, proposal: seq<ProposalRow>)
    requires |queue| == |proposal|
    ensures EditedCount(ApprovalsOf(operator, approvedAt, queue, proposal)) == EditCount(proposal)
  {
    if queue != [] {
      var front := ApprovalsOf(operator, approvedAt, queue[..|queue| - 1], proposal[..|proposal| - 1]);
      var last := ApprovalOf(operator, approvedAt, queue[|queue| - 1], proposal[|proposal| - 1]);
      EditsAreKept(operator, approvedAt, queue[..|queue| - 1], proposal[..|proposal| - 1]);
      assert (front + [last])[..|front + [last]| - 1] == front;
    }
  }

  /** The decisions taken on the first `n` rows of a drafted proposal. */
  lemma {:induction false} DecidedDrafts(operator: string, approvedAt: string, queue: seq<QueueRow>, proposal: seq<ProposalRow>, n: nat)
    requires n <= |queue| && Distinct(QueueIds(queue)) && Pairs(queue, proposal) && QueueIds(queue) == ProposalIds(proposal)
    ensures var r := Decided(operator, approvedAt, QueueIds(queue)[..n], queue, proposal);
      && (r.Ok? <==> AllStripped(queue[..n]))
      && (r.Ok? ==> r.value == ApprovalsOf(operator, approvedAt, queue[..n], proposal[..n]))
  {
    hide DecideRow, DraftOf, Stripped, ApprovalOf, QueueIds, ProposalIds;
    var ids := QueueIds(queue);
    if n > 0 {
      DecidedDrafts(operator, approvedAt, queue, proposal, n - 1);
      assert ids[..n][..n - 1] == ids[..n - 1] && proposal[..n][..n - 1] == proposal[..n - 1] && queue[..n][..n - 1] == queue[..n - 1];
      DraftIsAccepted(operator, approvedAt, queue[n - 1], proposal[n - 1]);
    }
  }

  /**
   * A proposal that was built for a queue is accepted exactly when the operator is named, the approvals template carries
   * the queue's Phase 2 authority, and every review hash in the queue is free of surrounding blanks. The approvals then
   * list the queue row by row with the proposed texts, and the audit's counts are the proposal's summary.
   */
  lemma WhenBuiltProposalIsAccepted(operator: string, approvedAt: string, proposal: ReviewProposal, queue: ReviewQueue, approvals: ApprovalSet)
    requires BuiltFor(queue, proposal)
    ensures var r := AppliedProposal(operator, approvedAt, proposal, queue, approvals);
      && (r.Ok? <==> Strip(operator) != "" && approvals.handoff == queue.handoff && AllStripped(queue.rows))
      && (r.Ok? ==> Approves(Strip(operator), approvedAt, proposal, queue, r.value.0, r.value.1.body.counts))
  {
    hide Strip, AllStripped, DraftOf, Decided, Keys, QueueIds, ProposalIds, EditCount, EditedCount, ApprovalsOf, FlagCount;
    var ids := QueueIds(queue.rows);
    SameIds(queue.rows, proposal.body.rows);
    KeysOfDistinct(ids);
    DecidedDrafts(Strip(operator), approvedAt, queue.rows, proposal.body.rows, |queue.rows|);
    ApprovalsAre(Strip(operator), approvedAt, queue.rows, proposal.body.rows);
    EditsAreKept(Strip(operator), approvedAt, queue.rows, proposal.body.rows);
    assert ids[..|queue.rows|] == ids && proposal.body.rows[..|queue.rows|] == proposal.body.rows
           && queue.rows[..|queue.rows|] == queue.rows;
  }

  /** The approvals written for a built proposal, row by row, and the counts of their audit. */
  ghost predicate Approves(operator: string, approvedAt: string, proposal: ReviewProposal, queue: ReviewQueue,
                           approved: ApprovalSet, counts: Counts)
  {
    && approved.handoff == queue.handoff && |approved.rows| == |queue.rows| == |proposal.body.rows|
    && (forall i :: 0 <= i < |queue.rows| ==>
          approved.rows[i] == ApprovalOf(operator, approvedAt, queue.rows[i], proposal.body.rows[i]))
    && counts.objects == proposal.body.summary.objects && counts.edited == proposal.body.summary.edits
    && counts.kept == proposal.body.summary.approvals
  }

  /** Such approvals say APPROVE exactly where the text is the candidate. */
  lemma ApprovesExactlyTheCandidates(operator: string, approvedAt: string, proposal: ReviewProposal, queue: ReviewQueue,
                                     approved: ApprovalSet, counts: Counts, i: nat)
    requires BuiltFor(queue, proposal) && Approves(operator, approvedAt, proposal, queue, approved, counts) && i < |queue.rows|
    ensures approved.rows[i].decision == if approved.rows[i].text == Strip(queue.rows[i].candidate) then APPROVE else EDIT
  {
    hide Strip, FlagCount, EditCount;
    assert DraftOf(queue.rows[i], proposal.body.rows[i]);
  }

  /** Such approvals give the chosen text of each row, and say APPROVE exactly where it is the candidate. */
  lemma ApprovesTheChosenTexts(operator: string, approvedAt: string, proposal: ReviewProposal, queue: ReviewQueue, edits: Edits,
                               approved: ApprovalSet, counts: Counts, i: nat)
    requires BuiltFor(queue, proposal) && ShowsChosen(queue, edits, proposal) && i < |queue.rows|
    requires Approves(operator, approvedAt, proposal, queue, approved, counts)
    ensures approved.rows[i].contentId == queue.rows[i].contentId && Chooses(queue.rows[i], edits, approved.rows[i].text)
    ensures approved.rows[i].decision == if approved.rows[i].text == Strip(queue.rows[i].candidate) then APPROVE else EDIT
    ensures approved.rows[i].reviewHash == queue.rows[i].reviewHash
    ensures approved.rows[i].reviewer == operator && approved.rows[i].reviewedAt == approvedAt
  {
    hide Strip, FlagCount, EditCount, Chooses, DraftOf;
    ApprovesExactlyTheCandidates(operator, approvedAt, proposal, queue, approved, counts, i);
    assert approved.rows[i] == ApprovalOf(operator, approvedAt, queue.rows[i], proposal.body.rows[i]);
  }
}
