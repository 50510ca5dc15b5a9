/** The Phase 3 batch: the index shown to the operator, the approval token it prints, and the all-or-nothing application. */
module Phase3Batch {
  import opened Prelude
  import opened Text
  import opened Sorting
  import opened Keyed
  import opened Phase3Review
  import opened Rollback

  datatype Document =
    | QueueFile(queue: ReviewQueue) | ProposalFile(proposal: ReviewProposal) | ApprovalsFile(approvals: ApprovalSet)
    | AuditFile(audit: ReviewAudit) | Unreadable

  type CaseFiles = Files<Document>

  datatype StateCase = StateCase(caseId: string, status: string)

  datatype BatchState = BatchState(cases: seq<StateCase>, runSha: string)

  datatype CaseSummary = CaseSummary(objects: int, edits: int, approvals: int, failures: int, flags: int)

  datatype BatchCase = BatchCase(caseId: string, status: string, queuePath: Path, queueSha: Hash, proposalPath: Path,
                                 proposalFileSha: Hash, proposalSha: Hash, summary: CaseSummary)

  datatype Totals = Totals(cases: int, sums: CaseSummary)

  datatype BatchBody = BatchBody(status: string, approvalWritten: bool, releaseLabel: string, generatedAt: string,
                                 stateSha: StateHash, counts: Totals, cases: seq<BatchCase>)

  datatype Batch = Batch(body: BatchBody, selfSha: BatchHash)

  datatype StateHash = OfState(state: BatchState) | PlainState(text: string)

  datatype BatchHash = OfBatch(body: BatchBody) | PlainBatch(text: string)

  datatype BatchError =
    | NoCases | NotWaiting(caseId: string) | MissingFile(caseId: string) | InvalidProposal(caseId: string) | StaleProposal(caseId: string)
    | NotCovered(caseId: string) | DecisionsExist(caseId: string) | CountMismatch | NoProposalTimes
    | InvalidIndexHash | NotApprovable | WrongToken | MissingReviewer | StaleState | StaleFile(caseId: string) | NotApplied

  const NO_TEXT := "NO_TEXT_OPERATOR_APPROVED"

  const WAITING := "WAITING_TRANSLATION_OPERATOR_REVIEW"

  const BLOCKED := "TRANSLATION_PROPOSAL_BLOCKED"

  const REVIEW_REQUIRED := "TRANSLATION_OPERATOR_REVIEW_REQUIRED"

  function ReadQueue(files: CaseFiles, path: Path): Option<ReviewQueue> {
    if path in files && files[path].QueueFile? then Some(files[path].queue) else None
  }

  function ReadProposal(files: CaseFiles, path: Path): Option<ReviewProposal> {
    if path in files && files[path].ProposalFile? then Some(files[path].proposal) else None
  }

  function ReadApprovals(files: CaseFiles, path: Path): Option<ApprovalSet> {
    if path in files && files[path].ApprovalsFile? then Some(files[path].approvals) else None
  }

  predicate Undecided(approvals: ApprovalSet) {
    forall i :: 0 <= i < |approvals.rows| ==>
      Strip(approvals.rows[i].decision) == "" && Strip(approvals.rows[i].reviewer) == "" && Strip(approvals.rows[i].reviewedAt) == ""
  }

  // ----- The index -----

  function SummaryOf(queue: ReviewQueue, proposal: ReviewProposal): CaseSummary {
    var s := proposal.body.summary;
    CaseSummary(s.objects, s.edits, s.approvals, queue.failed, s.flags)
  }

  function ListedCase(caseId: string, status: string, queue: ReviewQueue, proposal: ReviewProposal): BatchCase {
    BatchCase(caseId, status, Path(caseId, Queue), OfQueueFile(queue), Path(caseId, Proposal), OfProposalFile(proposal),
              proposal.selfSha, SummaryOf(queue, proposal))
  }

  function CheckCase(caseId: string, queue: ReviewQueue, proposal: ReviewProposal, approvals: ApprovalSet): Option<BatchError> {
    if !SelfHashed(proposal) || proposal.body.status != READY || proposal.body.approvalWritten then Some(InvalidProposal(caseId))
    else if proposal.body.queueSha != OfQueueFile(queue) || proposal.body.handoff != queue.handoff then Some(StaleProposal(caseId))
    else if !Covers(queue.rows, proposal.body.rows) then Some(NotCovered(caseId))
    else if !Undecided(approvals) then Some(DecisionsExist(caseId))
    else if proposal.body.summary.objects != |Keys(QueueIds(queue.rows))| then Some(CountMismatch)
    else None
  }

  /** The row of a case waiting for review; nothing for a case approved as having no text. */
  function IndexCase(files: CaseFiles, c: StateCase): Result<Option<BatchCase>, BatchError> {
    var caseId := Strip(c.caseId);
    var queue := ReadQueue(files, Path(caseId, Queue));
    var proposal := ReadProposal(files, Path(caseId, Proposal));
    var approvals := ReadApprovals(files, Path(caseId, Approvals));
    if c.status == NO_TEXT then Ok(None)
    else if caseId == "" || c.status != WAITING then Err(NotWaiting(caseId))
    else if queue.None? || proposal.None? || approvals.None? then Err(MissingFile(caseId))
    else
      match CheckCase(caseId, queue.value, proposal.value, approvals.value)
      case Some(e) => Err(e)
      case None => Ok(Some(ListedCase(caseId, c.status, queue.value, proposal.value)))
  }

  function IndexRows(files: CaseFiles, cases: seq<StateCase>): Result<seq<BatchCase>, BatchError> {
    if cases == [] then Ok([])
    else
      match IndexRows(files, cases[..|cases| - 1])
      case Err(e) => Err(e)
      case Ok(earlier) =>
        match IndexCase(files, cases[|cases| - 1])
        case Err(e) => Err(e)
        case Ok(None) => Ok(earlier)
        case Ok(Some(row)) => Ok(earlier + [row])
  }

  function AddSummary(a: CaseSummary, b: CaseSummary): CaseSummary {
    CaseSummary(a.objects + b.objects, a.edits + b.edits, a.approvals + b.approvals, a.failures + b.failures, a.flags + b.flags)
  }

  function TotalsOf(rows: seq<BatchCase>): Totals {
    if rows == [] then Totals(0, CaseSummary(0, 0, 0, 0, 0))
    else
      var earlier := TotalsOf(rows[..|rows| - 1]);
      Totals(earlier.cases + 1, AddSummary(earlier.sums, rows[|rows| - 1].summary))
  }

  function IndexOf(state: BatchState, rows: seq<BatchCase>, totals: Totals, release: string, generatedAt: string): Batch {
    var body := BatchBody(if totals.sums.failures != 0 then BLOCKED else REVIEW_REQUIRED, false, release, generatedAt,
                          OfState(state), totals, rows);
    Batch(body, OfBatch(body))
  }

  /** Sorting needs the order of case ids, and the default date the latest of the proposals'. */
  datatype Ordering = Ordering(before: (StateCase, StateCase) -> bool, latest: seq<BatchCase> -> string)

  function IndexedBatch(files: CaseFiles, state: BatchState, ordering: Ordering, release: string, generatedAt: string): Result<Batch, BatchError> {
    if state.cases == [] then Err(NoCases)
    else
      match IndexRows(files, Sort(state.cases, ordering.before))
      case Err(e) => Err(e)
      case Ok(rows) =>
        if generatedAt == "" && rows == [] then Err(NoProposalTimes)
        else Ok(IndexOf(state, rows, TotalsOf(rows), release, if generatedAt != "" then generatedAt else ordering.latest(rows)))
  }

  method BuildBatchReviewIndex(files: CaseFiles, state: BatchState, ordering: Ordering, release: string, generatedAt: string)
    returns (r: Result<Batch, BatchError>)
    ensures r == IndexedBatch(files, state, ordering, release, generatedAt)
  {
    hide IndexRows, TotalsOf, IndexOf, Sort;
    if state.cases == [] {
      return Err(NoCases);
    }
    var rows, totals := IndexAll(files, Sort(state.cases, ordering.before));
    if rows.Err? {
      return Err(rows.error);
    }
    if generatedAt == "" && rows.value == [] {
      return Err(NoProposalTimes);
    }
    r := Ok(IndexOf(state, rows.value, totals, release, if generatedAt != "" then generatedAt else ordering.latest(rows.value)));
  }

  method IndexAll(files: CaseFiles, cases: seq<StateCase>) returns (r: Result<seq<BatchCase>, BatchError>, totals: Totals)
    ensures r == IndexRows(files, cases)
    ensures r.Ok? ==> totals == TotalsOf(r.value)
  {
    hide IndexCase, AddSummary, TotalsOf;
    var rows: seq<BatchCase> := [];
    totals := Totals(0, CaseSummary(0, 0, 0, 0, 0));
    NoTotals();
    var i := 0;
    while i < |cases|
      invariant 0 <= i <= |cases|
      invariant IndexRows(files, cases[..i]) == Ok(rows)
      invariant totals == TotalsOf(rows)
    {
      assert cases[..i + 1][..i] == cases[..i];
      var row := IndexCase(files, cases[i]);
      if row.Err? {
        IndexFails(files, cases, i + 1);
        return Err(row.error), totals;
      }
      if row.value.Some? {
        TotalsStep(rows, row.value.value);
        totals := Totals(totals.cases + 1, AddSummary(totals.sums, row.value.value.summary));
        rows := rows + [row.value.value];
      }
      i := i + 1;
    }
    assert cases[..i] == cases;
    r := Ok(rows);
  }

  lemma NoTotals()
    ensures TotalsOf([]) == Totals(0, CaseSummary(0, 0, 0, 0, 0))
  {
  }

  lemma TotalsStep(rows: seq<BatchCase>, row: BatchCase)
    ensures TotalsOf(rows + [row]) == Totals(TotalsOf(rows).cases + 1, AddSummary(TotalsOf(rows).sums, row.summary))
  {
    hide AddSummary;
    assert (rows + [row])[..|rows|] == rows;
  }

  lemma IndexFails(files: CaseFiles, cases: seq<StateCase>, n: nat)
    requires n <= |cases| && IndexRows(files, cases[..n]).Err?
    ensures IndexRows(files, cases) == IndexRows(files, cases[..n])
  {
    hide IndexCase;
    PrefixFails(t => IndexRows(files, t), cases, n);
  }

  // ----- The token -----

  function BatchDigestLength(hash: BatchHash): nat {
    match hash
    case PlainBatch(text) => |text|
    case OfBatch(_) => 64
  }

  function Underscored(s: string): (r: string)
    ensures |r| == |s|
  {
    if s == "" then "" else [if s[0] == '.' || s[0] == '-' then '_' else s[0]] + Underscored(s[1..])
  }

  function TokenLabel(release: string): string { Underscored(if release == "" then "V22_1" else release) }

  const TOKEN_PREFIX := "TRANSLATION_PROPOSALS_APPROVED_"

  /** The first twelve hexadecimal digits of a digest. */
  type Digits = BatchHash -> string

  function ApprovalToken(digits: Digits, batch: Batch, release: string): Option<string> {
    if BatchDigestLength(batch.selfSha) != 64 then None
    else Some(TOKEN_PREFIX + TokenLabel(if release != "" then release else batch.body.releaseLabel) + ("_" + Upper(digits(batch.selfSha))))
  }

  // ----- Applying -----

  /** What must hold of one listed case before anything is written. */
  function PrepareCase(files: CaseFiles, c: BatchCase): Option<BatchError> {
    var caseId := Strip(c.caseId);
    var proposal := ReadProposal(files, c.proposalPath);
    var queue := ReadQueue(files, c.queuePath);
    var approvals := ReadApprovals(files, Path(caseId, Approvals));
    if caseId == "" || c.proposalPath.root != caseId || c.queuePath.root != caseId then Some(MissingFile(caseId))
    else if proposal.None? || queue.None? || approvals.None? then Some(MissingFile(caseId))
    else if OfProposalFile(proposal.value) != c.proposalFileSha || OfQueueFile(queue.value) != c.queueSha then Some(StaleFile(caseId))
    else if !SelfHashed(proposal.value) || proposal.value.selfSha != c.proposalSha then Some(InvalidProposal(caseId))
    else if !Undecided(approvals.value) then Some(DecisionsExist(caseId))
    else None
  }

  /** The per-case step, as it reads the case directory at the moment it is applied. */
  function ReviewCase(operator: string, approvedAt: string, c: BatchCase, files: CaseFiles): Option<(Document, Document)> {
    var caseId := Strip(c.caseId);
    var proposal := ReadProposal(files, c.proposalPath);
    var queue := ReadQueue(files, Path(caseId, Queue));
    var approvals := ReadApprovals(files, Path(caseId, Approvals));
    if proposal.None? || queue.None? || approvals.None? then None
    else
      match AppliedProposal(operator, approvedAt, proposal.value, queue.value, approvals.value)
      case Err(_) => None
      case Ok((approved, audit)) => Some((ApprovalsFile(approved), AuditFile(audit)))
  }

  function CaseOf(operator: string, approvedAt: string, c: BatchCase): Case<Document> {
    Case(Strip(c.caseId), files => ReviewCase(operator, approvedAt, c, files))
  }

  function CasesOf(operator: string, approvedAt: string, cases: seq<BatchCase>): (r: seq<Case<Document>>)
    ensures |r| == |cases| && forall i :: 0 <= i < |cases| ==> r[i] == CaseOf(operator, approvedAt, cases[i])
  {
    if cases == [] then [] else [CaseOf(operator, approvedAt, cases[0])] + CasesOf(operator, approvedAt, cases[1..])
  }

  /** The checks on the index itself, the token and the operator. */
  function BatchRefusal(digits: Digits, state: BatchState, batch: Batch, token: string, operator: string, approvedAt: string): Option<BatchError> {
    var expected := ApprovalToken(digits, batch, "");
    if BatchDigestLength(batch.selfSha) != 64 || batch.selfSha != OfBatch(batch.body) then Some(InvalidIndexHash)
    else if batch.body.status != REVIEW_REQUIRED || batch.body.approvalWritten then Some(NotApprovable)
    else if expected != Some(Upper(Strip(token))) then Some(WrongToken)
    else if Strip(operator) == "" || Strip(approvedAt) == "" then Some(MissingReviewer)
    else if batch.body.stateSha != OfState(state) then Some(StaleState)
    else None
  }

  function Preparation(files: CaseFiles, cases: seq<BatchCase>): Option<BatchError> {
    if cases == [] then None
    else
      var earlier := Preparation(files, cases[..|cases| - 1]);
      if earlier.Some? then earlier else PrepareCase(files, cases[|cases| - 1])
  }

  function Refusal(files: CaseFiles, digits: Digits, state: BatchState, batch: Batch, token: string, operator: string, approvedAt: string)
    : Option<BatchError>
  {
    var refused := BatchRefusal(digits, state, batch, token, operator, approvedAt);
    var unprepared := Preparation(files, batch.body.cases);
    if refused.Some? then refused
    else if unprepared.Some? then unprepared
    else if |batch.body.cases| != batch.body.counts.cases then Some(CountMismatch)
    else None
  }

  /** Writes every approval and audit of the batch, or leaves every file as it was. */
  method ApplyBatchReviewProposal(directory: Directory<Document>, digits: Digits, state: BatchState, batch: Batch, token: string,
                                  operator: string, approvedAt: string)
    returns (r: Result<(), BatchError>)
    modifies directory
    ensures r.Err? ==> directory.files == old(directory.files)
    ensures r.Ok? ==>
      && Refusal(old(directory.files), digits, state, batch, token, operator, approvedAt).None?
      && AppliedAll(old(directory.files), CasesOf(Strip(operator), Strip(approvedAt), batch.body.cases)) == Some(directory.files)
    ensures r.Err? ==>
      || Refusal(old(directory.files), digits, state, batch, token, operator, approvedAt).Some?
      || AppliedAll(old(directory.files), CasesOf(Strip(operator), Strip(approvedAt), batch.body.cases)).None?
      || exists n :: directory.faults(n)
  {
    hide BatchRefusal, PrepareCase, Strip, AppliedAll;
    var refused := BatchRefusal(digits, state, batch, token, operator, approvedAt);
    if refused.Some? {
      return Err(refused.value);
    }
    var cases := batch.body.cases;
    var i := 0;
    while i < |cases|
      invariant 0 <= i <= |cases|
      invariant Preparation(directory.files, cases[..i]).None?
    {
      assert cases[..i + 1][..i] == cases[..i];
      var unprepared := PrepareCase(directory.files, cases[i]);
      if unprepared.Some? {
        PreparationFails(directory.files, cases, i + 1);
        return Err(unprepared.value);
      }
      i := i + 1;
    }
    assert cases[..i] == cases;
    if |cases| != batch.body.counts.cases {
      return Err(CountMismatch);
    }
    var ok := directory.ApplyPhase3(CasesOf(Strip(operator), Strip(approvedAt), cases));
    r := if ok then Ok(()) else Err(NotApplied);
  }

  lemma {:induction false} PreparationFails(files: CaseFiles, cases: seq<BatchCase>, n: nat)
    requires n <= |cases| && Preparation(files, cases[..n]).Some?
    ensures Preparation(files, cases) == Preparation(files, cases[..n])
  {
    hide PrepareCase;
    if n < |cases| {
      assert cases[..|cases| - 1][..n] == cases[..n];
      PreparationFails(files, cases[..|cases| - 1], n);
    } else {
      assert cases[..n] == cases;
    }
  }
}
