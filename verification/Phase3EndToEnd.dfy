/** From built proposals through the printed token to written approvals: when a Phase 3 batch is accepted, and what it writes. */
module Phase3EndToEnd {
  import opened Prelude
  import opened Text
  import opened Sorting
  import opened Keyed
  import opened Phase3Review
  import opened Rollback
  import opened Phase3Batch

  /** The case's files are all readable, agree with the index row, and carry no decision yet. */
  predicate Listed(files: CaseFiles, c: BatchCase) {
    && c.caseId != "" && Strip(c.caseId) == c.caseId
    && Readable(files, c.caseId)
    && CheckCase(c.caseId, QueueAt(files, c.caseId), ProposalAt(files, c.caseId), ApprovalsAt(files, c.caseId)).None?
    && c == ListedCase(c.caseId, c.status, QueueAt(files, c.caseId), ProposalAt(files, c.caseId))
  }

  predicate Readable(files: CaseFiles, root: string) {
    && ReadQueue(files, Path(root, Queue)).Some?
    && ReadProposal(files, Path(root, Proposal)).Some?
    && ReadApprovals(files, Path(root, Approvals)).Some?
  }

  function QueueAt(files: CaseFiles, root: string): ReviewQueue
    requires Readable(files, root)
  {
    ReadQueue(files, Path(root, Queue)).value
  }

  function ProposalAt(files: CaseFiles, root: string): ReviewProposal
    requires Readable(files, root)
  {
    ReadProposal(files, Path(root, Proposal)).value
  }

  function ApprovalsAt(files: CaseFiles, root: string): ApprovalSet
    requires Readable(files, root)
  {
    ReadApprovals(files, Path(root, Approvals)).value
  }

  lemma IndexCaseLists(files: CaseFiles, c: StateCase)
    ensures var r := IndexCase(files, c); r.Ok? && r.value.Some? ==> Listed(files, r.value.value)
  {
    StripIsIdempotent(c.caseId);
    hide Strip, CheckCase;
  }

  lemma {:induction false} IndexLists(files: CaseFiles, cases: seq<StateCase>)
    requires IndexRows(files, cases).Ok?
    ensures forall i :: 0 <= i < |IndexRows(files, cases).value| ==> Listed(files, IndexRows(files, cases).value[i])
  {
    hide IndexCase, Listed;
    if cases != [] {
      IndexLists(files, cases[..|cases| - 1]);
      IndexCaseLists(files, cases[|cases| - 1]);
    }
  }

  /** A decision, reviewer or time in some row of the template. */
  predicate CarriesDecision(approvals: ApprovalSet) {
    exists i :: 0 <= i < |approvals.rows|
      && (Strip(approvals.rows[i].decision) != "" || Strip(approvals.rows[i].reviewer) != "" || Strip(approvals.rows[i].reviewedAt) != "")
  }

  /**
   * A waiting case with readable files is listed exactly when it has an id, its proposal is hashed, ready, unapproved, bound to
   * its queue and covers it, its template carries no decision yet, and the proposal counts the distinct ids of the queue.
   */
  lemma WhenCaseIsListed(files: CaseFiles, c: StateCase)
    requires c.status == WAITING && Readable(files, Strip(c.caseId))
    ensures var root := Strip(c.caseId);
      var queue, proposal, body := QueueAt(files, root), ProposalAt(files, root), ProposalAt(files, root).body;
      IndexCase(files, c).Ok? <==>
      && root != ""
      && proposal.selfSha == OfProposal(body) && body.status == READY && !body.approvalWritten
      && body.queueSha == OfQueueFile(queue) && body.handoff == queue.handoff
      && queue.rows != [] && "" !in QueueIds(queue.rows) && Elements(QueueIds(queue.rows)) == Elements(ProposalIds(body.rows))
      && !CarriesDecision(ApprovalsAt(files, root))
      && body.summary.objects == |Elements(QueueIds(queue.rows))|
  {
    var root := Strip(c.caseId);
    KeysHaveSameElements(QueueIds(QueueAt(files, root).rows));
    KeysHaveSameElements(ProposalIds(ProposalAt(files, root).body.rows));
    hide Strip, Keys, QueueIds, ProposalIds;
  }

  lemma KeysHaveSameElements(ids: seq<string>)
    ensures Elements(Keys(ids)) == Elements(ids) && |Keys(ids)| == |Elements(ids)|
  {
    KeysAreDistinct(ids);
    SameElements(Keys(ids), ids);
    DistinctCardinality(Keys(ids));
  }

  // ----- What the index counts -----

  /** The failed translations of a case, as its queue file says. */
  function FailedIn(files: CaseFiles): BatchCase -> int {
    (c: BatchCase) =>
      var queue := ReadQueue(files, Path(c.caseId, Queue));
      if queue.Some? then queue.value.failed else 0
  }

  /** One of the counts of a case, as its proposal file says. */
  function CountIn(files: CaseFiles, count: Summary -> int): BatchCase -> int {
    (c: BatchCase) =>
      var proposal := ReadProposal(files, Path(c.caseId, Proposal));
      if proposal.Some? then count(proposal.value.body.summary) else 0
  }

  const OBJECTS := (s: Summary) => s.objects

  const EDITS := (s: Summary) => s.edits

  const APPROVALS := (s: Summary) => s.approvals

  const FLAGS := (s: Summary) => s.flags

  /** The totals of an index, each a sum over the files of its cases. */
  ghost predicate Sums(files: CaseFiles, cases: seq<BatchCase>, totals: Totals) {
    && totals.cases == |cases|
    && totals.sums.objects == Total(cases, CountIn(files, OBJECTS)) && totals.sums.edits == Total(cases, CountIn(files, EDITS))
    && totals.sums.approvals == Total(cases, CountIn(files, APPROVALS)) && totals.sums.flags == Total(cases, CountIn(files, FLAGS))
    && totals.sums.failures == Total(cases, FailedIn(files))
  }

  lemma {:induction false} TotalsAreSums(files: CaseFiles, cases: seq<BatchCase>)
    requires forall i :: 0 <= i < |cases| ==> Listed(files, cases[i])
    ensures Sums(files, cases, TotalsOf(cases))
  {
    hide Listed, Total, FailedIn, CountIn;
    if cases == [] {
      NoSums(files);
    } else {
      TotalsAreSums(files, cases[..|cases| - 1]);
      ListedNumbers(files, cases[|cases| - 1]);
      TotalStep(cases, FailedIn(files));
      TotalStep(cases, CountIn(files, OBJECTS));
      TotalStep(cases, CountIn(files, EDITS));
      TotalStep(cases, CountIn(files, APPROVALS));
      TotalStep(cases, CountIn(files, FLAGS));
    }
  }

  lemma NoSums(files: CaseFiles)
    ensures Sums(files, [], TotalsOf([]))
  {
  }

  lemma ListedNumbers(files: CaseFiles, c: BatchCase)
    requires Listed(files, c)
    ensures c.summary.failures == FailedIn(files)(c) && c.summary.objects == CountIn(files, OBJECTS)(c)
    ensures c.summary.edits == CountIn(files, EDITS)(c) && c.summary.approvals == CountIn(files, APPROVALS)(c)
    ensures c.summary.flags == CountIn(files, FLAGS)(c)
  {
    hide CheckCase, Strip;
  }

  function Waits(c: StateCase): int { if c.status == WAITING then 1 else 0 }

  function Waiting(cases: seq<StateCase>): seq<StateCase> {
    if cases == [] then []
    else Waiting(cases[..|cases| - 1]) + (if cases[|cases| - 1].status == WAITING then [cases[|cases| - 1]] else [])
  }

  /** The listed cases are the waiting ones, in order, and every other case is approved as having no text. */
  lemma {:induction false} ListedAreWaiting(files: CaseFiles, cases: seq<StateCase>)
    requires IndexRows(files, cases).Ok?
    ensures var rows := IndexRows(files, cases).value;
      && |rows| == |Waiting(cases)| == Total(cases, Waits)
      && (forall i :: 0 <= i < |rows| ==> rows[i].caseId == Strip(Waiting(cases)[i].caseId))
    ensures forall i :: 0 <= i < |cases| ==> cases[i].status == NO_TEXT || cases[i].status == WAITING
  {
    hide IndexCase, Strip, Waits;
    if cases != [] {
      var n := |cases| - 1;
      ListedAreWaiting(files, cases[..n]);
      WaitingIsListed(files, cases[n]);
      TotalStep(cases, Waits);
      assert forall i :: 0 <= i < n ==> cases[..n][i] == cases[i];
    }
  }

  lemma WaitingIsListed(files: CaseFiles, c: StateCase)
    requires IndexCase(files, c).Ok?
    ensures c.status == NO_TEXT || c.status == WAITING
    ensures IndexCase(files, c).value.Some? <==> c.status == WAITING
    ensures IndexCase(files, c).value.Some? ==> IndexCase(files, c).value.value.caseId == Strip(c.caseId)
    ensures Waits(c) == if c.status == WAITING then 1 else 0
  {
    hide CheckCase, Strip;
  }

  lemma {:induction false} TotalOfInsert(x: StateCase, s: seq<StateCase>, le: (StateCase, StateCase) -> bool, f: StateCase -> int)
    ensures Total(Insert(x, s, le), f) == f(x) + Total(s, f)
  {
    if s != [] && !le(x, s[0]) {
      TotalOfInsert(x, s[1..], le, f);
      assert ([s[0]] + Insert(x, s[1..], le))[1..] == Insert(x, s[1..], le);
    } else {
      assert ([x] + s)[1..] == s;
    }
  }

  lemma {:induction false} TotalOfSort(s: seq<StateCase>, le: (StateCase, StateCase) -> bool, f: StateCase -> int)
    ensures Total(Sort(s, le), f) == Total(s, f)
  {
    if s != [] {
      TotalOfSort(s[1..], le, f);
      TotalOfInsert(s[0], Sort(s[1..], le), le, f);
    }
  }

  /**
   * The index of a batch lists one row per waiting case; its five totals are the sums over their files, and it is blocked
   * exactly when the failed translations do not sum to zero.
   */
  lemma IndexTotals(files: CaseFiles, state: BatchState, ordering: Ordering, release: string, generatedAt: string)
    requires IndexedBatch(files, state, ordering, release, generatedAt).Ok?
    ensures var body := IndexedBatch(files, state, ordering, release, generatedAt).value.body;
      && Sums(files, body.cases, body.counts)
      && body.counts.cases == Total(state.cases, Waits)
      && body.status == (if Total(body.cases, FailedIn(files)) != 0 then BLOCKED else REVIEW_REQUIRED)
      && !body.approvalWritten && body.releaseLabel == release && (generatedAt != "" ==> body.generatedAt == generatedAt)
  {
    hide IndexRows, TotalsOf, Sort, Listed, Sums, Waits;
    var ordered := Sort(state.cases, ordering.before);
    var cases := IndexedBatch(files, state, ordering, release, generatedAt).value.body.cases;
    IndexLists(files, ordered);
    TotalsAreSums(files, cases);
    SumsUnfold(files, cases, TotalsOf(cases));
    ListedAreWaiting(files, ordered);
    TotalOfSort(state.cases, ordering.before, Waits);
  }

  lemma SumsUnfold(files: CaseFiles, cases: seq<BatchCase>, totals: Totals)
    requires Sums(files, cases, totals)
    ensures totals.cases == |cases| && totals.sums.failures == Total(cases, FailedIn(files))
  {
  }

  lemma ListedIsPrepared(files: CaseFiles, c: BatchCase)
    requires Listed(files, c)
    ensures PrepareCase(files, c).None?
  {
    hide Strip, Undecided, Covers;
  }

  lemma {:induction false} ListedArePrepared(files: CaseFiles, cases: seq<BatchCase>)
    requires forall i :: 0 <= i < |cases| ==> Listed(files, cases[i])
    ensures Preparation(files, cases).None?
  {
    hide Listed, PrepareCase;
    if cases != [] {
      ListedArePrepared(files, cases[..|cases| - 1]);
      ListedIsPrepared(files, cases[|cases| - 1]);
    }
  }

  // ----- The token -----

  lemma PrefixIsUpper()
    ensures TOKEN_PREFIX != "" && !IsSpace(TOKEN_PREFIX[0]) && Upper(TOKEN_PREFIX) == TOKEN_PREFIX
  {
    hide Upper;
    assert forall i :: 0 <= i < |TOKEN_PREFIX| ==> UpperChar(TOKEN_PREFIX[i]) == TOKEN_PREFIX[i];
  }

  /** The token printed for an index is the one the application expects, and accepts it exactly for an upper-case label. */
  lemma PrintedToken(digits: Digits, batch: Batch, release: string)
    requires BatchDigestLength(batch.selfSha) == 64 && batch.body.releaseLabel == release && IsHex(digits(batch.selfSha))
    ensures ApprovalToken(digits, batch, release).Some?
    ensures ApprovalToken(digits, batch, "") == ApprovalToken(digits, batch, release)
    ensures var token := ApprovalToken(digits, batch, release).value;
      Some(Upper(Strip(token))) == ApprovalToken(digits, batch, "") <==> Upper(TokenLabel(release)) == TokenLabel(release)
  {
    PrefixIsUpper();
    hide Upper, Strip, TokenLabel, TOKEN_PREFIX;
    SuffixIsUpper(digits(batch.selfSha));
    TokenUnderUpper(TOKEN_PREFIX, TokenLabel(release), "_" + Upper(digits(batch.selfSha)));
  }

  // ----- Applying the listed cases -----

  /** What the application of one listed case turns on. */
  predicate Approvable(files: CaseFiles, c: BatchCase)
    requires Readable(files, c.caseId)
  {
    && ApprovalsAt(files, c.caseId).handoff == QueueAt(files, c.caseId).handoff
    && AllStripped(QueueAt(files, c.caseId).rows)
  }

  ghost predicate ListedAndBuilt(files: CaseFiles, c: BatchCase) {
    Listed(files, c) && BuiltFor(QueueAt(files, c.caseId), ProposalAt(files, c.caseId))
  }

  /** The approvals and the audit of the case, as written for its proposal. */
  ghost predicate Written(files: CaseFiles, after: CaseFiles, operator: string, approvedAt: string, c: BatchCase)
    requires Readable(files, c.caseId)
  {
    && ReadApprovals(after, Path(c.caseId, Approvals)).Some?
    && Path(c.caseId, Audit) in after && after[Path(c.caseId, Audit)].AuditFile?
    && Approves(operator, approvedAt, ProposalAt(files, c.caseId), QueueAt(files, c.caseId),
                ReadApprovals(after, Path(c.caseId, Approvals)).value, after[Path(c.caseId, Audit)].audit.body.counts)
  }

  /** Only approvals and audits of the given cases may differ. */
  ghost predicate OnlyReviews(files: CaseFiles, after: CaseFiles, cases: seq<BatchCase>) {
    forall path :: Lookup(after, path) == Lookup(files, path)
      || (path.file in {Approvals, Audit} && exists i :: 0 <= i < |cases| && cases[i].caseId == path.root)
  }

  /** The state between two applications. */
  ghost predicate Between(files: CaseFiles, now: CaseFiles, operator: string, approvedAt: string, cases: seq<BatchCase>) {
    && (forall i :: 0 <= i < |cases| ==> Readable(files, cases[i].caseId) && Written(files, now, operator, approvedAt, cases[i]))
    && OnlyReviews(files, now, cases)
  }

  lemma ReadKept(files: CaseFiles, now: CaseFiles, root: string)
    requires Lookup(now, Path(root, Queue)) == Lookup(files, Path(root, Queue))
    requires Lookup(now, Path(root, Proposal)) == Lookup(files, Path(root, Proposal))
    ensures ReadQueue(now, Path(root, Queue)) == ReadQueue(files, Path(root, Queue))
    ensures ReadProposal(now, Path(root, Proposal)) == ReadProposal(files, Path(root, Proposal))
  {
  }

  /** Whatever was applied before, a listed case meets approvals that are its own or already carry the queue's authority. */
  lemma ReadableBetween(files: CaseFiles, now: CaseFiles, operator: string, approvedAt: string, cases: seq<BatchCase>, c: BatchCase)
    requires ListedAndBuilt(files, c) && Between(files, now, operator, approvedAt, cases)
    requires forall i :: 0 <= i < |cases| ==> Readable(files, cases[i].caseId) && Approvable(files, cases[i])
    ensures Readable(now, c.caseId)
    ensures QueueAt(now, c.caseId) == QueueAt(files, c.caseId) && ProposalAt(now, c.caseId) == ProposalAt(files, c.caseId)
    ensures Approvable(now, c) <==> Approvable(files, c)
  {
    hide Strip, AllStripped, BuiltFor, CheckCase;
    ReadKept(files, now, c.caseId);
    if i :| 0 <= i < |cases| && cases[i].caseId == c.caseId {
      assert Written(files, now, operator, approvedAt, cases[i]);
      assert Approvable(files, cases[i]);
    } else {
      assert Lookup(now, Path(c.caseId, Approvals)) == Lookup(files, Path(c.caseId, Approvals));
    }
  }

  lemma ApplyListed(now: CaseFiles, operator: string, approvedAt: string, c: BatchCase)
    requires Strip(operator) == operator && operator != "" && Strip(c.caseId) == c.caseId && c.proposalPath == Path(c.caseId, Proposal)
    requires Readable(now, c.caseId) && BuiltFor(QueueAt(now, c.caseId), ProposalAt(now, c.caseId))
    ensures var r := AppliedOne(now, CaseOf(operator, approvedAt, c));
      && (r.Some? <==> Approvable(now, c))
      && (r.Some? ==> Written(now, r.value, operator, approvedAt, c) && OnlyReviews(now, r.value, [c]))
  {
    hide Strip, AllStripped, BuiltFor, AppliedProposal, Approves;
    WhenBuiltProposalIsAccepted(operator, approvedAt, ProposalAt(now, c.caseId), QueueAt(now, c.caseId), ApprovalsAt(now, c.caseId));
    assert [c][0].caseId == c.caseId;
  }

  lemma StepBetween(files: CaseFiles, now: CaseFiles, after: CaseFiles, operator: string, approvedAt: string, cases: seq<BatchCase>, c: BatchCase)
    requires Between(files, now, operator, approvedAt, cases) && Readable(files, c.caseId) && Readable(now, c.caseId)
    requires forall i :: 0 <= i < |cases| ==> Readable(files, cases[i].caseId)
    requires QueueAt(now, c.caseId) == QueueAt(files, c.caseId) && ProposalAt(now, c.caseId) == ProposalAt(files, c.caseId)
    requires Written(now, after, operator, approvedAt, c) && OnlyReviews(now, after, [c])
    ensures Between(files, after, operator, approvedAt, cases + [c])
  {
    hide Approves;
    forall i | 0 <= i < |cases + [c]|
      ensures Written(files, after, operator, approvedAt, (cases + [c])[i])
    {
      if i < |cases| {
        assert Written(files, now, operator, approvedAt, cases[i]);
        if cases[i].caseId != c.caseId {
          assert Lookup(after, Path(cases[i].caseId, Approvals)) == Lookup(now, Path(cases[i].caseId, Approvals));
          assert Lookup(after, Path(cases[i].caseId, Audit)) == Lookup(now, Path(cases[i].caseId, Audit));
        }
      }
    }
    OnlyReviewsChain(files, now, after, cases, c);
  }

  lemma OnlyReviewsChain(files: CaseFiles, now: CaseFiles, after: CaseFiles, cases: seq<BatchCase>, c: BatchCase)
    requires OnlyReviews(files, now, cases) && OnlyReviews(now, after, [c])
    ensures OnlyReviews(files, after, cases + [c])
  {
    forall path | Lookup(after, path) != Lookup(files, path)
      ensures path.file in {Approvals, Audit} && exists i :: 0 <= i < |cases + [c]| && (cases + [c])[i].caseId == path.root
    {
      if Lookup(after, path) != Lookup(now, path) {
        assert (cases + [c])[|cases|] == c;
      } else {
        var i :| 0 <= i < |cases| && cases[i].caseId == path.root;
        assert (cases + [c])[i] == cases[i];
      }
    }
  }

  predicate AllReadable(files: CaseFiles, cases: seq<BatchCase>) {
    forall i :: 0 <= i < |cases| ==> Readable(files, cases[i].caseId)
  }

  ghost predicate AllBuilt(files: CaseFiles, cases: seq<BatchCase>) {
    forall i :: 0 <= i < |cases| ==> ListedAndBuilt(files, cases[i])
  }

  predicate AllApprovable(files: CaseFiles, cases: seq<BatchCase>)
    requires AllReadable(files, cases)
  {
    forall i :: 0 <= i < |cases| ==> Approvable(files, cases[i])
  }

  lemma FrontOfCases(operator: string, approvedAt: string, cases: seq<BatchCase>)
    requires cases != []
    ensures var all := CasesOf(operator, approvedAt, cases);
      && |all| == |cases| && all[..|all| - 1] == CasesOf(operator, approvedAt, cases[..|cases| - 1])
      && all[|all| - 1] == CaseOf(operator, approvedAt, cases[|cases| - 1])
  {
    hide CaseOf;
  }

  lemma FrontOfListed(files: CaseFiles, cases: seq<BatchCase>)
    requires cases != [] && AllReadable(files, cases) && AllBuilt(files, cases)
    ensures var front, last := cases[..|cases| - 1], cases[|cases| - 1];
      && AllReadable(files, front) && AllBuilt(files, front) && Readable(files, last.caseId) && ListedAndBuilt(files, last)
      && (AllApprovable(files, cases) <==> AllApprovable(files, front) && Approvable(files, last))
  {
    hide ListedAndBuilt, Approvable, Readable;
    var front := cases[..|cases| - 1];
    assert forall i :: 0 <= i < |front| ==> cases[i] == front[i];
  }

  /** Applying listed cases in order succeeds exactly when each of them is approvable, and writes just their reviews. */
  lemma {:induction false} ApplyAllListed(files: CaseFiles, operator: string, approvedAt: string, cases: seq<BatchCase>)
    requires Strip(operator) == operator && operator != ""
    requires AllReadable(files, cases) && AllBuilt(files, cases)
    ensures var r := AppliedAll(files, CasesOf(operator, approvedAt, cases));
      && (r.Some? <==> AllApprovable(files, cases))
      && (r.Some? ==> Between(files, r.value, operator, approvedAt, cases))
  {
    hide AllBuilt, AllReadable, AllApprovable, ListedAndBuilt, Approvable, Between, AppliedOne, CaseOf, CasesOf, Strip;
    if cases == [] {
      NothingToApply(files, operator, approvedAt);
    } else {
      var front, last := cases[..|cases| - 1], cases[|cases| - 1];
      FrontOfListed(files, cases);
      FrontOfCases(operator, approvedAt, cases);
      ApplyAllListed(files, operator, approvedAt, front);
      var earlier := AppliedAll(files, CasesOf(operator, approvedAt, front));
      if earlier.Some? {
        ApplyNext(files, earlier.value, operator, approvedAt, front, last);
        assert front + [last] == cases;
      }
    }
  }

  lemma NothingToApply(files: CaseFiles, operator: string, approvedAt: string)
    ensures AppliedAll(files, CasesOf(operator, approvedAt, [])) == Some(files)
    ensures AllReadable(files, []) && AllApprovable(files, [])
    ensures Between(files, files, operator, approvedAt, [])
  {
  }

  lemma ApplyNext(files: CaseFiles, now: CaseFiles, operator: string, approvedAt: string, cases: seq<BatchCase>, c: BatchCase)
    requires Strip(operator) == operator && operator != "" && ListedAndBuilt(files, c)
    requires AllReadable(files, cases) && AllApprovable(files, cases)
    requires Between(files, now, operator, approvedAt, cases) && Readable(files, c.caseId)
    ensures var r := AppliedOne(now, CaseOf(operator, approvedAt, c));
      && (r.Some? <==> Approvable(files, c))
      && (r.Some? ==> Between(files, r.value, operator, approvedAt, cases + [c]))
  {
    ReadableBetween(files, now, operator, approvedAt, cases, c);
    assert c.proposalPath == Path(c.caseId, Proposal) && Strip(c.caseId) == c.caseId;
    assert BuiltFor(QueueAt(files, c.caseId), ProposalAt(files, c.caseId));
    hide Between, Approvable, BuiltFor, Strip, Listed, Readable, AppliedOne, CaseOf;
    ApplyListed(now, operator, approvedAt, c);
    var r := AppliedOne(now, CaseOf(operator, approvedAt, c));
    if r.Some? {
      StepBetween(files, now, r.value, operator, approvedAt, cases, c);
    }
  }

  /** What the author of a case's proposal supplied. */
  datatype Drafting = Drafting(language: Language, edits: Edits, author: string, createdAt: string)

  /** The stored proposals are the ones the build produced for the stored queues. */
  predicate ProposalsAreBuilt(files: CaseFiles, drafting: string -> Drafting, cases: seq<BatchCase>) {
    forall i :: 0 <= i < |cases| ==> ProposalIsBuilt(files, drafting(cases[i].caseId), cases[i])
  }

  predicate ProposalIsBuilt(files: CaseFiles, d: Drafting, c: BatchCase) {
    && Readable(files, c.caseId)
    && BuiltProposal(d.language, QueueAt(files, c.caseId), d.edits, d.author, d.createdAt) == Ok(ProposalAt(files, c.caseId))
  }

  lemma ListedProposalsAreBuilt(files: CaseFiles, drafting: string -> Drafting, cases: seq<BatchCase>)
    requires forall i :: 0 <= i < |cases| ==> Listed(files, cases[i])
    requires ProposalsAreBuilt(files, drafting, cases)
    ensures AllReadable(files, cases) && AllBuilt(files, cases)
  {
    hide Listed, BuiltProposal, BuiltFor;
    forall i | 0 <= i < |cases|
      ensures Readable(files, cases[i].caseId) && ListedAndBuilt(files, cases[i])
    {
      var d := drafting(cases[i].caseId);
      assert ProposalIsBuilt(files, d, cases[i]);
      BuildPromises(d.language, QueueAt(files, cases[i].caseId), d.edits, d.author, d.createdAt);
    }
  }

  /** The approvals of a case give each row the text chosen for it, as EDIT unless it is the candidate. */
  ghost predicate HoldsChosen(files: CaseFiles, after: CaseFiles, edits: Edits, operator: string, approvedAt: string, c: BatchCase)
    requires Readable(files, c.caseId)
  {
    && ReadApprovals(after, Path(c.caseId, Approvals)).Some?
    && var queue, approved := QueueAt(files, c.caseId), ReadApprovals(after, Path(c.caseId, Approvals)).value;
    && |approved.rows| == |queue.rows|
    && forall i :: 0 <= i < |queue.rows| ==>
         && approved.rows[i].contentId == queue.rows[i].contentId && Chooses(queue.rows[i], edits, approved.rows[i].text)
         && approved.rows[i].decision == (if approved.rows[i].text == Strip(queue.rows[i].candidate) then APPROVE else EDIT)
         && approved.rows[i].reviewer == operator && approved.rows[i].reviewedAt == approvedAt
  }

  lemma WrittenIsChosen(files: CaseFiles, after: CaseFiles, d: Drafting, operator: string, approvedAt: string, c: BatchCase)
    requires Readable(files, c.caseId) && ProposalIsBuilt(files, d, c) && Written(files, after, operator, approvedAt, c)
    ensures HoldsChosen(files, after, d.edits, operator, approvedAt, c)
  {
    hide BuiltProposal, BuiltFor, ShowsChosen, Approves, Strip, Chooses;
    var queue, proposal := QueueAt(files, c.caseId), ProposalAt(files, c.caseId);
    BuildPromises(d.language, queue, d.edits, d.author, d.createdAt);
    var approved, counts := ReadApprovals(after, Path(c.caseId, Approvals)).value, after[Path(c.caseId, Audit)].audit.body.counts;
    ApprovedLength(operator, approvedAt, proposal, queue, approved, counts);
    forall i | 0 <= i < |queue.rows|
      ensures approved.rows[i].contentId == queue.rows[i].contentId && Chooses(queue.rows[i], d.edits, approved.rows[i].text)
      ensures approved.rows[i].decision == (if approved.rows[i].text == Strip(queue.rows[i].candidate) then APPROVE else EDIT)
      ensures approved.rows[i].reviewer == operator && approved.rows[i].reviewedAt == approvedAt
    {
      ApprovesTheChosenTexts(operator, approvedAt, proposal, queue, d.edits, approved, counts, i);
    }
  }

  lemma ApprovedLength(operator: string, approvedAt: string, proposal: ReviewProposal, queue: ReviewQueue, approved: ApprovalSet, counts: Counts)
    requires Approves(operator, approvedAt, proposal, queue, approved, counts)
    ensures |approved.rows| == |queue.rows|
  {
  }

  /**
   * End to end. For an index built over proposals that were built for their queues, the printed token is accepted and
   * every case applied exactly when the failed translations of the listed queues sum to zero, the normalized label is upper
   * case, operator and time are given, each approvals template carries its queue's authority, and every review hash is stored
   * without blanks. Then each listed case holds the chosen text of every row, and nothing else has changed.
   */
  lemma WhenIndexedBatchIsAccepted(files: CaseFiles, state: BatchState, ordering: Ordering, release: string, generatedAt: string,
                                   digits: Digits, operator: string, approvedAt: string, drafting: string -> Drafting)
    requires IndexedBatch(files, state, ordering, release, generatedAt).Ok?
    requires var batch := IndexedBatch(files, state, ordering, release, generatedAt).value;
      && IsHex(digits(batch.selfSha))
      && ProposalsAreBuilt(files, drafting, batch.body.cases)
    ensures AllReadable(files, IndexedBatch(files, state, ordering, release, generatedAt).value.body.cases)
    ensures var batch := IndexedBatch(files, state, ordering, release, generatedAt).value;
      var cases := batch.body.cases;
      var applied := AppliedAll(files, CasesOf(Strip(operator), Strip(approvedAt), cases));
      && ApprovalToken(digits, batch, release).Some?
      && var accepted := Refusal(files, digits, state, batch, ApprovalToken(digits, batch, release).value, operator, approvedAt).None?
                         && applied.Some?;
      && (accepted <==>
            && Total(cases, FailedIn(files)) == 0
            && Upper(TokenLabel(release)) == TokenLabel(release)
            && Strip(operator) != "" && Strip(approvedAt) != ""
            && AllApprovable(files, cases))
      && (accepted ==>
            && Between(files, applied.value, Strip(operator), Strip(approvedAt), cases)
            && forall i :: 0 <= i < |cases| ==>
                 HoldsChosen(files, applied.value, drafting(cases[i].caseId).edits, Strip(operator), Strip(approvedAt), cases[i]))
  {
    hide Strip, Upper, TokenLabel, IsHex, Listed, ProposalsAreBuilt, AllReadable, AllBuilt, AllApprovable, Between, IndexRows, Preparation, TotalsOf,
         Sort, AppliedAll, CasesOf, ApprovalToken, HoldsChosen, Sums;
    var batch := IndexedBatch(files, state, ordering, release, generatedAt).value;
    var cases := batch.body.cases;
    IndexLists(files, Sort(state.cases, ordering.before));
    ListedProposalsAreBuilt(files, drafting, cases);
    IndexTotals(files, state, ordering, release, generatedAt);
    SumsUnfold(files, cases, batch.body.counts);
    ListedArePrepared(files, cases);
    PrintedToken(digits, batch, release);
    StripIsIdempotent(operator);
    if Strip(operator) != "" {
      ApplyAllListed(files, Strip(operator), Strip(approvedAt), cases);
      var applied := AppliedAll(files, CasesOf(Strip(operator), Strip(approvedAt), cases));
      if applied.Some? {
        AllHoldChosen(files, applied.value, drafting, Strip(operator), Strip(approvedAt), cases);
      }
    }
  }

  lemma AllHoldChosen(files: CaseFiles, after: CaseFiles, drafting: string -> Drafting, operator: string, approvedAt: string, cases: seq<BatchCase>)
    requires ProposalsAreBuilt(files, drafting, cases) && AllReadable(files, cases) && Between(files, after, operator, approvedAt, cases)
    ensures forall i :: 0 <= i < |cases| ==>
      && Readable(files, cases[i].caseId)
      && HoldsChosen(files, after, drafting(cases[i].caseId).edits, operator, approvedAt, cases[i])
  {
    hide HoldsChosen, ProposalIsBuilt, Written, Readable;
    forall i | 0 <= i < |cases|
      ensures Readable(files, cases[i].caseId)
      ensures HoldsChosen(files, after, drafting(cases[i].caseId).edits, operator, approvedAt, cases[i])
    {
      assert ProposalIsBuilt(files, drafting(cases[i].caseId), cases[i]);
      assert Written(files, after, operator, approvedAt, cases[i]);
      WrittenIsChosen(files, after, drafting(cases[i].caseId), operator, approvedAt, cases[i]);
    }
  }

  /** No queue counts failures below zero, so an accepted batch has no failed translation in any listed case. */
  lemma AcceptedHasNoFailure(files: CaseFiles, cases: seq<BatchCase>)
    requires AllReadable(files, cases)
    requires forall i :: 0 <= i < |cases| ==> QueueAt(files, cases[i].caseId).failed >= 0
    ensures Total(cases, FailedIn(files)) == 0 <==> forall i :: 0 <= i < |cases| ==> QueueAt(files, cases[i].caseId).failed == 0
  {
    forall i | 0 <= i < |cases|
      ensures Readable(files, cases[i].caseId) && FailedIn(files)(cases[i]) == QueueAt(files, cases[i].caseId).failed
    {
    }
    ZeroTotal(cases, FailedIn(files));
  }
}
