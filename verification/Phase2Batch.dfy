/** The Phase 2 batch: materializing every approved proposal, then recording all decisions or none. */
module Phase2Batch {
  import opened Prelude
  import opened Text
  import opened Phase2Review
  import opened Phase2Chain
  import OperatorReview
  import opened Rollback

  datatype ReviewAudit = ReviewAudit(reviewer: string, reviewedAt: string, queueSha: Hash, decisionsSha: Hash,
                                     counts: OperatorReview.ReviewCounts)

  datatype Document =
    | QueueFile(queue: ReviewQueue) | ProposalFile(proposal: Phase2Review.Proposal) | DecisionsFile(decisions: DecisionSet)
    | ApprovalsFile(approvals: OperatorReview.ApprovalFile) | TimelineFile(timeline: seq<OperatorReview.TimelineRow>)
    | AuditFile(audit: ReviewAudit) | Unreadable

  type CaseFiles = Files<Document>

  datatype BatchCase = BatchCase(caseId: string, proposalPath: Path, proposalFileSha: Hash, queueSha: Hash, proposalSha: Hash)

  /** A file the batch was computed from, with the digest it had. */
  datatype Reference = Reference(path: string, sha: string)

  datatype BatchBody = BatchBody(status: string, references: seq<Reference>, cases: seq<BatchCase>)

  datatype Batch = Batch(body: BatchBody, selfSha: BatchHash)

  datatype BatchHash = OfBatch(body: BatchBody) | PlainBatch(text: string)

  datatype BatchError =
    | InvalidBatchHash | NotApprovable | MissingLabel | WrongToken | NoReviewer | StaleReference(path: string)
    | MissingFile(caseId: string) | StaleFile(caseId: string) | CannotMaterialize(caseId: string, reason: ReviewError) | NotApplied

  const APPROVABLE := "OPERATOR_APPROVAL_REQUIRED"

  const TOKEN_PREFIX := "OCR_PROPOSALS_APPROVED_"

  type Digits = BatchHash -> string

  /** The digest of a referenced file as it is now. */
  type Current = string -> Option<string>

  predicate SelfHashed(batch: Batch) { batch.selfSha == OfBatch(batch.body) }

  function ExpectedToken(digits: Digits, batch: Batch, release: string): string {
    TOKEN_PREFIX + Upper(Strip(release)) + "_" + Upper(digits(batch.selfSha))
  }

  function FirstStale(references: seq<Reference>, current: Current): Option<BatchError> {
    if references == [] then None
    else
      var earlier := FirstStale(references[..|references| - 1], current);
      var last := references[|references| - 1];
      if earlier.Some? then earlier else if current(last.path) != Some(last.sha) then Some(StaleReference(last.path)) else None
  }

  function BatchRefusal(digits: Digits, current: Current, batch: Batch, token: string, release: string, reviewer: string, reviewedAt: string)
    : Option<BatchError>
  {
    if !SelfHashed(batch) then Some(InvalidBatchHash)
    else if batch.body.status != APPROVABLE then Some(NotApprovable)
    else if Strip(release) == "" then Some(MissingLabel)
    else if Upper(Strip(token)) != ExpectedToken(digits, batch, release) then Some(WrongToken)
    else if Strip(reviewer) == "" || Strip(reviewedAt) == "" then Some(NoReviewer)
    else FirstStale(batch.body.references, current)
  }

  /** Every referenced file is as it was. */
  predicate AllCurrent(references: seq<Reference>, current: Current) {
    forall i :: 0 <= i < |references| ==> current(references[i].path) == Some(references[i].sha)
  }

  /** The first reference that is not. */
  predicate FirstChanged(references: seq<Reference>, current: Current, k: int) {
    && 0 <= k < |references| && current(references[k].path) != Some(references[k].sha)
    && forall i :: 0 <= i < k ==> current(references[i].path) == Some(references[i].sha)
  }

  lemma {:induction false} FirstStaleIs(references: seq<Reference>, current: Current)
    ensures FirstStale(references, current).None? <==> AllCurrent(references, current)
    ensures FirstStale(references, current).Some? ==>
      exists k :: FirstChanged(references, current, k) && FirstStale(references, current) == Some(StaleReference(references[k].path))
  {
    if references != [] {
      var n := |references| - 1;
      FirstStaleIs(references[..n], current);
      assert forall i :: 0 <= i < n ==> references[..n][i] == references[i];
      if FirstStale(references[..n], current).Some? {
        var k :| FirstChanged(references[..n], current, k)
                 && FirstStale(references[..n], current) == Some(StaleReference(references[..n][k].path));
        assert FirstChanged(references, current, k);
      } else if FirstStale(references, current).Some? {
        assert FirstChanged(references, current, n);
      }
    }
  }

  /**
   * A batch is admitted exactly when it is hashed over its own content and awaits approval, a label is given, the token reads as
   * expected up to blanks and letter case, reviewer and time are given, and every referenced file is as it was.
   */
  lemma WhenBatchIsAdmitted(digits: Digits, current: Current, batch: Batch, token: string, release: string, reviewer: string, reviewedAt: string)
    ensures BatchRefusal(digits, current, batch, token, release, reviewer, reviewedAt).None? <==>
      && batch.selfSha == OfBatch(batch.body) && batch.body.status == "OPERATOR_APPROVAL_REQUIRED" && Strip(release) != ""
      && Upper(Strip(token)) == "OCR_PROPOSALS_APPROVED_" + Upper(Strip(release)) + "_" + Upper(digits(batch.selfSha))
      && Strip(reviewer) != "" && Strip(reviewedAt) != "" && AllCurrent(batch.body.references, current)
    ensures BatchRefusal(digits, current, batch, token, release, reviewer, reviewedAt) != None ==>
      var refused := BatchRefusal(digits, current, batch, token, release, reviewer, reviewedAt).value;
      refused.StaleReference? ==>
        exists k :: FirstChanged(batch.body.references, current, k) && refused.path == batch.body.references[k].path
  {
    FirstStaleIs(batch.body.references, current);
    hide Strip, Upper, FirstStale, FirstChanged, AllCurrent;
  }

  /** The expected token is accepted as it stands, whatever the label: both sides are upper-cased. */
  lemma ExpectedTokenIsAccepted(digits: Digits, batch: Batch, release: string)
    requires IsHex(digits(batch.selfSha))
    ensures Upper(Strip(ExpectedToken(digits, batch, release))) == ExpectedToken(digits, batch, release)
  {
    Phase2PrefixIsUpper();
    UpperIsIdempotent(Strip(release));
    hide Upper, Strip, TOKEN_PREFIX;
    SuffixIsUpper(digits(batch.selfSha));
    var middle := Upper(Strip(release));
    TokenUnderUpper(TOKEN_PREFIX, middle, "_" + Upper(digits(batch.selfSha)));
    assert ExpectedToken(digits, batch, release) == TOKEN_PREFIX + middle + ("_" + Upper(digits(batch.selfSha)));
  }

  lemma Phase2PrefixIsUpper()
    ensures TOKEN_PREFIX != "" && !IsSpace(TOKEN_PREFIX[0]) && Upper(TOKEN_PREFIX) == TOKEN_PREFIX
  {
    hide Upper;
    assert forall i :: 0 <= i < |TOKEN_PREFIX| ==> UpperChar(TOKEN_PREFIX[i]) == TOKEN_PREFIX[i];
  }

  // ----- One case -----

  function ReadQueue(files: CaseFiles, root: string): Option<ReviewQueue> {
    var path := Path(root, Queue);
    if path in files && files[path].QueueFile? then Some(files[path].queue) else None
  }

  function ReadProposal(files: CaseFiles, path: Path): Option<Phase2Review.Proposal> {
    if path in files && files[path].ProposalFile? then Some(files[path].proposal) else None
  }

  function ReadDecisions(files: CaseFiles, root: string): Option<DecisionSet> {
    var path := Path(root, Decisions);
    if path in files && files[path].DecisionsFile? then Some(files[path].decisions) else None
  }

  /** An absent timeline counts as an empty one; one that cannot be read fails the review. */
  function ReadTimeline(files: CaseFiles, root: string): Option<seq<OperatorReview.TimelineRow>> {
    var path := Path(root, Timeline);
    if path !in files then Some([]) else if files[path].TimelineFile? then Some(files[path].timeline) else None
  }

  /** Earlier approvals are consulted only beside a timeline. */
  function ReadExisting(files: CaseFiles, root: string, timeline: seq<OperatorReview.TimelineRow>): Option<Option<OperatorReview.ApprovalFile>> {
    var path := Path(root, Approvals);
    if path !in files || timeline == [] then Some(None)
    else if files[path].ApprovalsFile? then Some(Some(files[path].approvals)) else None
  }

  function AuditFor(given: DecisionSet, counts: OperatorReview.ReviewCounts): ReviewAudit {
    ReviewAudit(Strip(given.body.reviewer), Strip(given.body.reviewedAt), given.body.queueSha, given.selfSha, counts)
  }

  /** Applying one case: the decisions file just staged, against the queue, the timeline and the earlier approvals. */
  function ReviewCase(root: string, files: CaseFiles): Option<(Document, Document)> {
    var given, queue, timeline := ReadDecisions(files, root), ReadQueue(files, root), ReadTimeline(files, root);
    if given.None? || queue.None? || timeline.None? then None
    else
      var existing := ReadExisting(files, root, timeline.value);
      if existing.None? then None
      else
        match OperatorReview.Recorded(queue.value, given.value, existing.value, timeline.value)
        case Err(_) => None
        case Ok(recording) => Some((ApprovalsFile(recording.file), AuditFile(AuditFor(given.value, recording.counts))))
  }

  function CaseOf(root: string): Case<Document> { Case(root, files => ReviewCase(root, files)) }

  function PrepareCase(files: CaseFiles, c: BatchCase, reviewer: string, reviewedAt: string): Result<Decided<Document>, BatchError> {
    var caseId := Strip(c.caseId);
    var proposal, queue := ReadProposal(files, c.proposalPath), ReadQueue(files, caseId);
    if caseId == "" || c.proposalPath.root != caseId || proposal.None? || queue.None? then Err(MissingFile(caseId))
    else if OfProposalFile(proposal.value) != c.proposalFileSha || OfQueueFile(queue.value) != c.queueSha
            || proposal.value.selfSha != c.proposalSha then Err(StaleFile(caseId))
    else
      match Materialized(queue.value, proposal.value, c.proposalSha, reviewer, reviewedAt)
      case Err(e) => Err(CannotMaterialize(caseId, e))
      case Ok(decisions) => Ok(Decided(CaseOf(caseId), DecisionsFile(decisions)))
  }

  function Prepared(files: CaseFiles, cases: seq<BatchCase>, reviewer: string, reviewedAt: string): Result<seq<Decided<Document>>, BatchError> {
    if cases == [] then Ok([])
    else
      match Prepared(files, cases[..|cases| - 1], reviewer, reviewedAt)
      case Err(e) => Err(e)
      case Ok(earlier) =>
        match PrepareCase(files, cases[|cases| - 1], reviewer, reviewedAt)
        case Err(e) => Err(e)
        case Ok(d) => Ok(earlier + [d])
  }

  // ----- The batch -----

  /**
   * Records every case of the batch or fails. A failure while writing is undone except for repeated cases, as the rollback
   * of this phase allows; with pairwise distinct cases nothing at all has changed.
   */
  method ApplyBatchProposal(directory: Directory<Document>, digits: Digits, current: Current, batch: Batch, token: string,
                            release: string, reviewer: string, reviewedAt: string)
    returns (r: Result<(), BatchError>, ghost staged: nat)
    modifies directory
    ensures var refused := BatchRefusal(digits, current, batch, token, release, reviewer, reviewedAt);
      var prepared := Prepared(old(directory.files), batch.body.cases, Strip(reviewer), Strip(reviewedAt));
      && (r.Ok? ==>
            && refused.None? && prepared.Ok?
            && AppliedAll(Staged(old(directory.files), prepared.value), Subjects(prepared.value)) == Some(directory.files))
      && (r.Err? && (refused.Some? || prepared.Err?) ==> directory.files == old(directory.files))
      && (r.Err? && refused.None? && prepared.Ok? ==>
            && staged <= |prepared.value| && directory.files == RolledBack(old(directory.files), prepared.value[..staged])
            && (DistinctRoots(prepared.value) ==> directory.files == old(directory.files))
            && (AppliedAll(Staged(old(directory.files), prepared.value), Subjects(prepared.value)) == None
                || exists n :: directory.faults(n)))
  {
    hide BatchRefusal, Strip, Prepared, AppliedAll, Staged, RolledBack, Subjects, DistinctRoots;
    staged := 0;
    var refused := BatchRefusal(digits, current, batch, token, release, reviewer, reviewedAt);
    if refused.Some? {
      return Err(refused.value), staged;
    }
    var prepared := PrepareCases(directory.files, batch.body.cases, Strip(reviewer), Strip(reviewedAt));
    if prepared.Err? {
      return Err(prepared.error), staged;
    }
    var ok;
    ok, staged := directory.ApplyPhase2(prepared.value);
    if !ok && DistinctRoots(prepared.value) {
      DistinctRootsRollBack(old(directory.files), prepared.value, staged);
    }
    r := if ok then Ok(()) else Err(NotApplied);
  }

  method PrepareCases(files: CaseFiles, cases: seq<BatchCase>, reviewer: string, reviewedAt: string)
    returns (r: Result<seq<Decided<Document>>, BatchError>)
    ensures r == Prepared(files, cases, reviewer, reviewedAt)
  {
    hide PrepareCase;
    var prepared: seq<Decided<Document>> := [];
    var i := 0;
    while i < |cases|
      invariant 0 <= i <= |cases|
      invariant Prepared(files, cases[..i], reviewer, reviewedAt) == Ok(prepared)
    {
      assert cases[..i + 1][..i] == cases[..i];
      var next := PrepareCase(files, cases[i], reviewer, reviewedAt);
      if next.Err? {
        PreparationFails(files, cases, reviewer, reviewedAt, i + 1);
        return Err(next.error);
      }
      prepared := prepared + [next.value];
      i := i + 1;
    }
    assert cases[..i] == cases;
    r := Ok(prepared);
  }

  lemma PreparationFails(files: CaseFiles, cases: seq<BatchCase>, reviewer: string, reviewedAt: string, n: nat)
    requires n <= |cases| && Prepared(files, cases[..n], reviewer, reviewedAt).Err?
    ensures Prepared(files, cases, reviewer, reviewedAt) == Prepared(files, cases[..n], reviewer, reviewedAt)
  {
    hide PrepareCase;
    PrefixFails(t => Prepared(files, t, reviewer, reviewedAt), cases, n);
  }

  // ----- Cases on distinct roots do not see each other -----

  /** The files a review of the root reads are the same on both sides. */
  ghost predicate SameCase(a: CaseFiles, b: CaseFiles, root: string) {
    forall file: FileName :: file != Audit ==> Lookup(a, Path(root, file)) == Lookup(b, Path(root, file))
  }

  lemma ReviewReadsItsCase(a: CaseFiles, b: CaseFiles, root: string)
    requires SameCase(a, b, root)
    ensures ReviewCase(root, a) == ReviewCase(root, b)
  {
    hide OperatorReview.Recorded;
    assert Lookup(a, Path(root, Decisions)) == Lookup(b, Path(root, Decisions));
    assert Lookup(a, Path(root, Queue)) == Lookup(b, Path(root, Queue));
    assert Lookup(a, Path(root, Timeline)) == Lookup(b, Path(root, Timeline));
    assert Lookup(a, Path(root, Approvals)) == Lookup(b, Path(root, Approvals));
  }

  function Reviewed(root: string, files: CaseFiles): CaseFiles
    requires ReviewCase(root, files).Some?
  {
    var (approvals, audit) := ReviewCase(root, files).value;
    files[Path(root, Approvals) := approvals][Path(root, Audit) := audit]
  }

  lemma AppliedCase(root: string, files: CaseFiles)
    ensures AppliedOne(files, CaseOf(root)) == if ReviewCase(root, files).Some? then Some(Reviewed(root, files)) else None
  {
    hide ReviewCase;
  }

  function CasesOf(roots: seq<string>): (cases: seq<Case<Document>>)
    ensures |cases| == |roots|
  {
    if roots == [] then [] else CasesOf(roots[..|roots| - 1]) + [CaseOf(roots[|roots| - 1])]
  }

  /** After the cases of some roots were applied, another root still looks as it did. */
  ghost predicate Untouched(files: CaseFiles, after: CaseFiles, roots: seq<string>) {
    forall path: Path :: path.root !in roots ==> Lookup(after, path) == Lookup(files, path)
  }

  predicate Recordable(files: CaseFiles, root: string) { ReviewCase(root, files).Some? }

  predicate AllRecordable(files: CaseFiles, roots: seq<string>) {
    forall i :: 0 <= i < |roots| ==> Recordable(files, roots[i])
  }

  /** Each root holds the approvals its own files lead to. */
  ghost predicate AllRecorded(files: CaseFiles, after: CaseFiles, roots: seq<string>) {
    forall i :: 0 <= i < |roots| ==>
      Recordable(files, roots[i]) && Lookup(after, Path(roots[i], Approvals)) == Some(ReviewCase(roots[i], files).value.0)
  }

  lemma ReviewedKeepsOthers(root: string, files: CaseFiles, path: Path)
    requires ReviewCase(root, files).Some?
    ensures path.root != root ==> Lookup(Reviewed(root, files), path) == Lookup(files, path)
    ensures Lookup(Reviewed(root, files), Path(root, Approvals)) == Some(ReviewCase(root, files).value.0)
  {
    hide ReviewCase;
  }

  lemma UntouchedStep(files: CaseFiles, now: CaseFiles, roots: seq<string>, root: string)
    requires Untouched(files, now, roots) && Recordable(now, root)
    ensures Untouched(files, Reviewed(root, now), roots + [root])
  {
    hide ReviewCase, Reviewed;
    forall path: Path
      ensures path.root != root ==> Lookup(Reviewed(root, now), path) == Lookup(now, path)
    {
      ReviewedKeepsOthers(root, now, path);
    }
  }

  lemma RecordedStep(files: CaseFiles, now: CaseFiles, roots: seq<string>, root: string)
    requires AllRecorded(files, now, roots) && root !in roots
    requires ReviewCase(root, now) == ReviewCase(root, files) && Recordable(now, root)
    ensures AllRecorded(files, Reviewed(root, now), roots + [root])
  {
    hide ReviewCase, Reviewed;
    var after, all := Reviewed(root, now), roots + [root];
    forall i | 0 <= i < |all|
      ensures Recordable(files, all[i]) && Lookup(after, Path(all[i], Approvals)) == Some(ReviewCase(all[i], files).value.0)
    {
      if i < |roots| {
        assert roots[i] in roots;
        ReviewedKeepsOthers(root, now, Path(roots[i], Approvals));
      } else {
        ReviewedKeepsOthers(root, now, Path(root, Approvals));
      }
    }
  }

  lemma RecordStep(files: CaseFiles, now: CaseFiles, roots: seq<string>, root: string)
    requires Untouched(files, now, roots) && AllRecorded(files, now, roots) && root !in roots
    ensures Recordable(now, root) <==> Recordable(files, root)
    ensures Recordable(now, root) ==>
      Untouched(files, Reviewed(root, now), roots + [root]) && AllRecorded(files, Reviewed(root, now), roots + [root])
  {
    assert SameCase(files, now, root);
    ReviewReadsItsCase(files, now, root);
    hide ReviewCase, Untouched, AllRecorded, Reviewed;
    if Recordable(now, root) {
      UntouchedStep(files, now, roots, root);
      RecordedStep(files, now, roots, root);
    }
  }

  /** On distinct roots, all cases are applied exactly when each could be applied on its own, with the same approvals. */
  lemma {:induction false} DistinctCasesApply(files: CaseFiles, roots: seq<string>)
    requires Distinct(roots)
    ensures var r := AppliedAll(files, CasesOf(roots));
      && (r.Some? <==> AllRecordable(files, roots))
      && (r.Some? ==> Untouched(files, r.value, roots) && AllRecorded(files, r.value, roots))
  {
    hide Recordable, AppliedOne, CaseOf, Untouched, AllRecorded, Reviewed;
    if roots == [] {
      NothingApplied(files);
    } else {
      var front, last := roots[..|roots| - 1], roots[|roots| - 1];
      assert roots == front + [last];
      DistinctCasesApply(files, front);
      assert CasesOf(roots)[..|roots| - 1] == CasesOf(front);
      assert AllRecordable(files, roots) <==> AllRecordable(files, front) && Recordable(files, last) by {
        assert forall i :: 0 <= i < |front| ==> roots[i] == front[i];
      }
      var earlier := AppliedAll(files, CasesOf(front));
      if earlier.Some? {
        AppliedCase(last, earlier.value);
        RecordStep(files, earlier.value, front, last);
        RecordableMeans(earlier.value, last);
      }
    }
  }

  lemma RecordableMeans(files: CaseFiles, root: string)
    ensures Recordable(files, root) <==> ReviewCase(root, files).Some?
  {
  }

  lemma NothingApplied(files: CaseFiles)
    ensures Untouched(files, files, []) && AllRecorded(files, files, [])
  {
  }

  // ----- The whole chain over a batch -----

  /** The listed files are there, unchanged since the batch was computed, and the proposal was built for the queue. */
  ghost predicate Stored(files: CaseFiles, c: BatchCase) {
    && c.caseId != "" && Strip(c.caseId) == c.caseId && c.proposalPath == Path(c.caseId, Rollback.Proposal)
    && ReadQueue(files, c.caseId).Some? && ReadProposal(files, c.proposalPath).Some?
    && c.queueSha == OfQueueFile(QueueAt(files, c)) && c.proposalFileSha == OfProposalFile(ProposalAt(files, c))
    && c.proposalSha == ProposalAt(files, c).selfSha && BuiltFor(QueueAt(files, c), ProposalAt(files, c))
  }

  function QueueAt(files: CaseFiles, c: BatchCase): ReviewQueue
    requires ReadQueue(files, c.caseId).Some?
  {
    ReadQueue(files, c.caseId).value
  }

  function ProposalAt(files: CaseFiles, c: BatchCase): Phase2Review.Proposal
    requires ReadProposal(files, c.proposalPath).Some?
  {
    ReadProposal(files, c.proposalPath).value
  }

  /** The decisions the case leads to. */
  function DecisionsAt(files: CaseFiles, c: BatchCase, reviewer: string, reviewedAt: string): Result<DecisionSet, ReviewError>
    requires ReadQueue(files, c.caseId).Some? && ReadProposal(files, c.proposalPath).Some?
  {
    Materialized(QueueAt(files, c), ProposalAt(files, c), c.proposalSha, reviewer, reviewedAt)
  }

  /** A stored case is prepared exactly when its queue's ids are clean, its rows resolved and the reviewer named. */
  lemma WhenCaseIsPrepared(files: CaseFiles, c: BatchCase, reviewer: string, reviewedAt: string)
    requires Stored(files, c)
    ensures var r := PrepareCase(files, c, reviewer, reviewedAt);
      && (r.Ok? <==>
            && CleanIds(QueueAt(files, c)) && AllResolved(ProposalAt(files, c).body.rows)
            && Strip(reviewer) != "" && Strip(reviewedAt) != "")
      && (r.Ok? ==>
            && DecisionsAt(files, c, reviewer, reviewedAt).Ok?
            && r.value == Decided(CaseOf(c.caseId), DecisionsFile(DecisionsAt(files, c, reviewer, reviewedAt).value)))
  {
    hide Materialized, CleanIds, AllResolved, Strip, BuiltFor;
    WhenBuiltProposalMaterializes(QueueAt(files, c), ProposalAt(files, c), c.proposalSha, reviewer, reviewedAt);
  }

  /** The timeline and, beside one, the earlier approvals can be read. */
  predicate HistoryReadable(files: CaseFiles, root: string) {
    && ReadTimeline(files, root).Some?
    && ReadExisting(files, root, ReadTimeline(files, root).value).Some?
  }

  /** The approvals record each row of the case's proposal, except for objects its timeline leaves out. */
  ghost predicate RecordsCase(files: CaseFiles, written: Document, c: BatchCase, reviewer: string, reviewedAt: string)
    requires ReadQueue(files, c.caseId).Some? && ReadProposal(files, c.proposalPath).Some?
  {
    && written.ApprovalsFile? && ReadTimeline(files, c.caseId).Some?
    && OperatorReview.Records(QueueAt(files, c).objects, ProposalAt(files, c).body.rows, ReadTimeline(files, c.caseId).value,
                              written.approvals.approvals, Strip(reviewer), Strip(reviewedAt))
  }

  /** Once its decisions are staged, a case is recordable exactly when its queue is not empty and its history readable. */
  lemma WhenStagedCaseIsRecordable(files: CaseFiles, staged: CaseFiles, c: BatchCase, reviewer: string, reviewedAt: string)
    requires Stored(files, c) && DecisionsAt(files, c, reviewer, reviewedAt).Ok?
    requires Lookup(staged, Path(c.caseId, Decisions)) == Some(DecisionsFile(DecisionsAt(files, c, reviewer, reviewedAt).value))
    requires forall path: Path :: path.file != Decisions ==> Lookup(staged, path) == Lookup(files, path)
    ensures Recordable(staged, c.caseId) <==> QueueAt(files, c).objects != [] && HistoryReadable(files, c.caseId)
    ensures Recordable(staged, c.caseId) ==> RecordsCase(files, ReviewCase(c.caseId, staged).value.0, c, reviewer, reviewedAt)
  {
    hide Materialized, Strip, BuiltFor, OperatorReview.Recorded, OperatorReview.Records;
    var root := c.caseId;
    assert Lookup(staged, Path(root, Queue)) == Lookup(files, Path(root, Queue));
    assert Lookup(staged, Path(root, Timeline)) == Lookup(files, Path(root, Timeline));
    assert Lookup(staged, Path(root, Approvals)) == Lookup(files, Path(root, Approvals));
    if HistoryReadable(files, root) {
      var timeline := ReadTimeline(files, root).value;
      OperatorReview.WhenBuiltDecisionsAreRecorded(QueueAt(files, c), ProposalAt(files, c), c.proposalSha, reviewer, reviewedAt,
                                                   ReadExisting(files, root, timeline).value, timeline);
    }
  }

  function CaseIds(cases: seq<BatchCase>): (ids: seq<string>)
    ensures |ids| == |cases| && forall i :: 0 <= i < |cases| ==> ids[i] == cases[i].caseId
  {
    Map(cases, (c: BatchCase) => c.caseId)
  }

  ghost predicate AllStored(files: CaseFiles, cases: seq<BatchCase>) { forall i :: 0 <= i < |cases| ==> Stored(files, cases[i]) }

  lemma {:induction false} PreparedAre(files: CaseFiles, cases: seq<BatchCase>, reviewer: string, reviewedAt: string)
    requires AllStored(files, cases)
    ensures var r := Prepared(files, cases, reviewer, reviewedAt);
      && (r.Ok? <==> forall i :: 0 <= i < |cases| ==> PrepareCase(files, cases[i], reviewer, reviewedAt).Ok?)
      && (r.Ok? ==>
            && |r.value| == |cases|
            && forall i :: 0 <= i < |cases| ==> PrepareCase(files, cases[i], reviewer, reviewedAt) == Ok(r.value[i]))
  {
    hide PrepareCase, Stored;
    if cases != [] {
      PreparedAre(files, cases[..|cases| - 1], reviewer, reviewedAt);
    }
  }

  lemma SubjectsAreCases(prepared: seq<Decided<Document>>, roots: seq<string>)
    requires |prepared| == |roots| && forall i :: 0 <= i < |roots| ==> prepared[i].subject == CaseOf(roots[i])
    ensures Subjects(prepared) == CasesOf(roots)
  {
    hide CaseOf;
    CasesAt(roots);
  }

  lemma {:induction false} CasesAt(roots: seq<string>)
    ensures forall i :: 0 <= i < |roots| ==> CasesOf(roots)[i] == CaseOf(roots[i])
  {
    hide CaseOf;
    if roots != [] {
      CasesAt(roots[..|roots| - 1]);
    }
  }

  lemma StagedDecisions(files: CaseFiles, prepared: seq<Decided<Document>>, i: nat)
    requires DistinctRoots(prepared) && i < |prepared|
    ensures Lookup(Staged(files, prepared), Rollback.DecisionsOf(prepared[i])) == Some(prepared[i].decisions)
  {
    hide Staged;
    var last := StagedContent(files, prepared, prepared[i].subject.root);
    assert last == i;
  }

  /** What makes a case go through: clean and non-empty queue, resolved rows, readable history. */
  ghost predicate GoesThrough(files: CaseFiles, c: BatchCase)
    requires ReadQueue(files, c.caseId).Some? && ReadProposal(files, c.proposalPath).Some?
  {
    && CleanIds(QueueAt(files, c)) && QueueAt(files, c).objects != []
    && AllResolved(ProposalAt(files, c).body.rows) && HistoryReadable(files, c.caseId)
  }

  /** One case of a prepared batch, seen from the staged files. */
  lemma StagedCase(files: CaseFiles, cases: seq<BatchCase>, prepared: seq<Decided<Document>>, reviewer: string, reviewedAt: string, i: nat)
    requires AllStored(files, cases) && Prepared(files, cases, reviewer, reviewedAt) == Ok(prepared) && DistinctRoots(prepared)
    requires i < |cases|
    ensures Stored(files, cases[i])
    ensures Recordable(Staged(files, prepared), cases[i].caseId) <==>
      QueueAt(files, cases[i]).objects != [] && HistoryReadable(files, cases[i].caseId)
    ensures Recordable(Staged(files, prepared), cases[i].caseId) ==>
      RecordsCase(files, ReviewCase(cases[i].caseId, Staged(files, prepared)).value.0, cases[i], reviewer, reviewedAt)
  {
    PreparedAre(files, cases, reviewer, reviewedAt);
    WhenCaseIsPrepared(files, cases[i], reviewer, reviewedAt);
    hide PrepareCase, Stored, Staged, Prepared, HistoryReadable, DecisionsAt, DistinctRoots, ReviewCase, RecordsCase;
    StagedDecisions(files, prepared, i);
    forall path: Path | path.file != Decisions
      ensures Lookup(Staged(files, prepared), path) == Lookup(files, path)
    {
      OtherFilesKept(files, prepared, path);
    }
    WhenStagedCaseIsRecordable(files, Staged(files, prepared), cases[i], reviewer, reviewedAt);
  }

  lemma PreparedRoots(files: CaseFiles, cases: seq<BatchCase>, prepared: seq<Decided<Document>>, reviewer: string, reviewedAt: string)
    requires AllStored(files, cases) && Prepared(files, cases, reviewer, reviewedAt) == Ok(prepared)
    ensures |prepared| == |cases| && forall i :: 0 <= i < |cases| ==> prepared[i].subject == CaseOf(cases[i].caseId)
    ensures Subjects(prepared) == CasesOf(CaseIds(cases))
    ensures Distinct(CaseIds(cases)) ==> DistinctRoots(prepared)
  {
    PreparedAre(files, cases, reviewer, reviewedAt);
    forall i | 0 <= i < |cases|
      ensures prepared[i].subject == CaseOf(cases[i].caseId)
    {
      WhenCaseIsPrepared(files, cases[i], reviewer, reviewedAt);
    }
    hide Stored, PrepareCase;
    SubjectsAreCases(prepared, CaseIds(cases));
  }

  lemma PreparedWhenEachIs(files: CaseFiles, cases: seq<BatchCase>, reviewer: string, reviewedAt: string)
    requires AllStored(files, cases) && Strip(reviewer) != "" && Strip(reviewedAt) != ""
    ensures Prepared(files, cases, reviewer, reviewedAt).Ok? <==>
      forall i :: 0 <= i < |cases| ==> CleanIds(QueueAt(files, cases[i])) && AllResolved(ProposalAt(files, cases[i]).body.rows)
  {
    PreparedAre(files, cases, reviewer, reviewedAt);
    forall i | 0 <= i < |cases|
      ensures Stored(files, cases[i])
      ensures PrepareCase(files, cases[i], reviewer, reviewedAt).Ok? <==>
        CleanIds(QueueAt(files, cases[i])) && AllResolved(ProposalAt(files, cases[i]).body.rows)
    {
      WhenCaseIsPrepared(files, cases[i], reviewer, reviewedAt);
    }
    hide PrepareCase, Stored, CleanIds, AllResolved, QueueAt, ProposalAt;
  }

  /** The approvals file of a case after the batch. */
  ghost predicate RecordedAt(files: CaseFiles, after: CaseFiles, c: BatchCase, reviewer: string, reviewedAt: string)
    requires ReadQueue(files, c.caseId).Some? && ReadProposal(files, c.proposalPath).Some?
  {
    Lookup(after, Path(c.caseId, Approvals)).Some?
    && RecordsCase(files, Lookup(after, Path(c.caseId, Approvals)).value, c, reviewer, reviewedAt)
  }

  lemma EachIsRecorded(files: CaseFiles, cases: seq<BatchCase>, prepared: seq<Decided<Document>>, after: CaseFiles, reviewer: string,
                       reviewedAt: string, i: nat)
    requires AllStored(files, cases) && Prepared(files, cases, reviewer, reviewedAt) == Ok(prepared) && DistinctRoots(prepared)
    requires AllRecorded(Staged(files, prepared), after, CaseIds(cases)) && i < |cases|
    ensures Stored(files, cases[i]) && RecordedAt(files, after, cases[i], reviewer, reviewedAt)
  {
    hide Prepared, Staged, Recordable, HistoryReadable, DistinctRoots, ReviewCase, RecordsCase, Stored;
    StagedCase(files, cases, prepared, reviewer, reviewedAt, i);
    assert CaseIds(cases)[i] == cases[i].caseId;
    StoredReads(files, cases[i]);
  }

  lemma StoredReads(files: CaseFiles, c: BatchCase)
    requires Stored(files, c)
    ensures ReadQueue(files, c.caseId).Some? && ReadProposal(files, c.proposalPath).Some?
  {
  }

  /**
   * A batch of pairwise distinct cases, whose files are unchanged and whose proposals were built for their queues, goes
   * through exactly when every case has clean ids, a non-empty queue, only resolved rows, and a readable timeline and
   * approval history. Then each case holds the approvals of its proposal, except for objects its timeline leaves out.
   */
  lemma WhenBatchIsRecorded(files: CaseFiles, cases: seq<BatchCase>, reviewer: string, reviewedAt: string)
    requires AllStored(files, cases) && Distinct(CaseIds(cases)) && Strip(reviewer) != "" && Strip(reviewedAt) != ""
    ensures var prepared := Prepared(files, cases, reviewer, reviewedAt);
      && (prepared.Ok? && AppliedAll(Staged(files, prepared.value), Subjects(prepared.value)).Some? <==>
          forall i :: 0 <= i < |cases| ==> Stored(files, cases[i]) && GoesThrough(files, cases[i]))
      && (prepared.Ok? && AppliedAll(Staged(files, prepared.value), Subjects(prepared.value)).Some? ==>
          var after := AppliedAll(Staged(files, prepared.value), Subjects(prepared.value)).value;
          forall i :: 0 <= i < |cases| ==> Stored(files, cases[i]) && RecordedAt(files, after, cases[i], reviewer, reviewedAt))
  {
    hide BuiltFor, Prepared, AppliedAll, Staged, Subjects, CasesOf, CleanIds, AllResolved, HistoryReadable, Recordable, QueueAt, ProposalAt,
         DistinctRoots, Strip, CaseIds, RecordedAt, AllRecorded, Untouched, RecordsCase, ReviewCase;
    PreparedWhenEachIs(files, cases, reviewer, reviewedAt);
    var r := Prepared(files, cases, reviewer, reviewedAt);
    if r.Ok? {
      var prepared := r.value;
      var staged := Staged(files, prepared);
      PreparedRoots(files, cases, prepared, reviewer, reviewedAt);
      DistinctCasesApply(staged, CaseIds(cases));
      forall i | 0 <= i < |cases|
        ensures Stored(files, cases[i])
        ensures Recordable(staged, CaseIds(cases)[i]) <==> QueueAt(files, cases[i]).objects != [] && HistoryReadable(files, cases[i].caseId)
      {
        StagedCase(files, cases, prepared, reviewer, reviewedAt, i);
      }
      var applied := AppliedAll(staged, Subjects(prepared));
      if applied.Some? {
        forall i | 0 <= i < |cases|
          ensures Stored(files, cases[i]) && RecordedAt(files, applied.value, cases[i], reviewer, reviewedAt)
        {
          EachIsRecorded(files, cases, prepared, applied.value, reviewer, reviewedAt, i);
        }
      }
    }
  }

  /** The approvals of a case hold every row of its proposal. */
  ghost predicate HoldsAllAt(files: CaseFiles, after: CaseFiles, c: BatchCase, reviewer: string, reviewedAt: string)
    requires ReadQueue(files, c.caseId).Some? && ReadProposal(files, c.proposalPath).Some?
  {
    && Lookup(after, Path(c.caseId, Approvals)).Some? && Lookup(after, Path(c.caseId, Approvals)).value.ApprovalsFile?
    && OperatorReview.HoldsAll(QueueAt(files, c).objects, ProposalAt(files, c).body.rows,
                               Lookup(after, Path(c.caseId, Approvals)).value.approvals.approvals, Strip(reviewer), Strip(reviewedAt))
  }

  /** Recorded in full: a case holds every approved row exactly when it has no timeline or one that lists its whole queue. */
  lemma WhenCaseIsRecordedInFull(files: CaseFiles, after: CaseFiles, c: BatchCase, reviewer: string, reviewedAt: string)
    requires Stored(files, c) && RecordedAt(files, after, c, reviewer, reviewedAt)
    ensures ReadTimeline(files, c.caseId).Some?
    ensures HoldsAllAt(files, after, c, reviewer, reviewedAt) <==>
      OperatorReview.ListsAll(QueueAt(files, c).objects, ReadTimeline(files, c.caseId).value)
  {
    hide Strip, BuiltFor;
    OperatorReview.WhenAllAreHeld(QueueAt(files, c).objects, ProposalAt(files, c).body.rows, ReadTimeline(files, c.caseId).value,
                                  Lookup(after, Path(c.caseId, Approvals)).value.approvals.approvals, Strip(reviewer), Strip(reviewedAt));
  }

  /** The timeline of the case leaves no object of its queue out. */
  predicate TimelineListsAll(files: CaseFiles, c: BatchCase)
    requires ReadQueue(files, c.caseId).Some?
  {
    ReadTimeline(files, c.caseId).Some? && OperatorReview.ListsAll(QueueAt(files, c).objects, ReadTimeline(files, c.caseId).value)
  }

  /** The batch records every approved row of every case exactly when each case goes through and no timeline leaves an object out. */
  lemma WhenBatchIsRecordedInFull(files: CaseFiles, cases: seq<BatchCase>, reviewer: string, reviewedAt: string)
    requires AllStored(files, cases) && Distinct(CaseIds(cases)) && Strip(reviewer) != "" && Strip(reviewedAt) != ""
    ensures var prepared := Prepared(files, cases, reviewer, reviewedAt);
      (prepared.Ok? && AppliedAll(Staged(files, prepared.value), Subjects(prepared.value)).Some?
       && var after := AppliedAll(Staged(files, prepared.value), Subjects(prepared.value)).value;
          forall i :: 0 <= i < |cases| ==> Stored(files, cases[i]) && HoldsAllAt(files, after, cases[i], reviewer, reviewedAt))
      <==> (forall i :: 0 <= i < |cases| ==> Stored(files, cases[i]) && GoesThrough(files, cases[i]) && TimelineListsAll(files, cases[i]))
  {
    hide BuiltFor, Prepared, AppliedAll, Staged, Subjects, CleanIds, AllResolved, HistoryReadable, QueueAt, ProposalAt, Strip, CaseIds,
         RecordedAt, GoesThrough, HoldsAllAt;
    WhenBatchIsRecorded(files, cases, reviewer, reviewedAt);
    var prepared := Prepared(files, cases, reviewer, reviewedAt);
    if prepared.Ok? && AppliedAll(Staged(files, prepared.value), Subjects(prepared.value)).Some? {
      var after := AppliedAll(Staged(files, prepared.value), Subjects(prepared.value)).value;
      forall i | 0 <= i < |cases|
        ensures Stored(files, cases[i])
        ensures HoldsAllAt(files, after, cases[i], reviewer, reviewedAt) <==> TimelineListsAll(files, cases[i])
      {
        WhenCaseIsRecordedInFull(files, after, cases[i], reviewer, reviewedAt);
      }
    }
  }
}
