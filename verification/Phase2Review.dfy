/** The Phase 2 OCR proposal: building it, validating it against its queue, and turning it into decisions. */
module Phase2Review {
  import opened Prelude
  import opened Text
  import opened Keyed
  import opened Phase2Rows
  import ReviewedAuthority
  import TransitionGroups

  datatype QueueObject = QueueObject(contentId: string, geometryRefs: seq<string>, assets: seq<Span>, candidate: string, reviewHash: string)

  datatype ReviewQueue = ReviewQueue(phase1Ref: string, objects: seq<QueueObject>)

  datatype Counts = Counts(objects: nat, carry: nat, manual: nat, inputRequired: nat, approve: nat, edit: nat, reject: nat)

  datatype ProposalBody = ProposalBody(queueSha: Hash, counts: Counts, suggestions: nat, rows: seq<ProposalRow>, groups: seq<MergeGroup>)

  datatype Proposal = Proposal(body: ProposalBody, selfSha: Hash)

  datatype Decision = Decision(contentId: string, decision: string, text: string)

  datatype DecisionBody = DecisionBody(queueSha: Hash, reviewer: string, reviewedAt: string, proposalFileSha: Hash, proposalSha: Hash,
                                       decisions: seq<Decision>)

  datatype DecisionSet = DecisionSet(body: DecisionBody, selfSha: Hash)

  datatype Hash =
    | OfQueueFile(queue: ReviewQueue) | OfProposal(proposalBody: ProposalBody) | OfProposalFile(proposal: Proposal)
    | OfDecisions(decisionBody: DecisionBody) | Plain(text: string)

  datatype ReviewError =
    | EmptyRecommendationId | InvalidRecommendation(contentId: string) | UnknownSuggestions | EmptyContentId
    | ApproveChanged(contentId: string) | EditWithoutText(contentId: string)
    | InvalidSelfHash | StaleQueue | NotCovering | UnsupportedDecision(contentId: string) | RejectWithText(contentId: string)
    | InputRowDecided(contentId: string)
    | AnotherProposal | MissingReviewer | NotMaterializable(contentId: string) | TextMissing(contentId: string)

  function DigestLength(hash: Hash): nat {
    match hash
    case Plain(text) => |text|
    case _ => 64
  }

  predicate SelfHashed(p: Proposal) { DigestLength(p.selfSha) == 64 && p.selfSha == OfProposal(p.body) }

  function ObjectIds(objects: seq<QueueObject>): (ids: seq<string>)
    ensures |ids| == |objects|
  {
    Map(objects, (o: QueueObject) => o.contentId)
  }

  function RowIds(rows: seq<ProposalRow>): (ids: seq<string>)
    ensures |ids| == |rows|
  {
    Map(rows, (row: ProposalRow) => row.contentId)
  }

  // ----- Recommendations -----

  datatype RawRecommendation = Suggested(text: string) | Structured(decision: string, text: string) | Unusable

  /** A normalized recommendation; the decision of a bare suggestion is empty. */
  datatype Recommendation = Recommendation(decision: string, text: string)

  function Normalize(contentId: string, raw: RawRecommendation): Result<Recommendation, ReviewError> {
    match raw
    case Unusable => Err(InvalidRecommendation(contentId))
    case Suggested(text) =>
      if Strip(text) == "" then Err(InvalidRecommendation(contentId)) else Ok(Recommendation("", Strip(text)))
    case Structured(rawDecision, rawText) =>
      var decision, text := Upper(Strip(rawDecision)), Strip(rawText);
      if decision !in {"", APPROVE, EDIT, REJECT_UI, INPUT_REQUIRED} then Err(InvalidRecommendation(contentId))
      else if decision == EDIT && text == "" then Err(InvalidRecommendation(contentId))
      else if decision in {REJECT_UI, INPUT_REQUIRED} && text != "" then Err(InvalidRecommendation(contentId))
      else Ok(Recommendation(decision, text))
  }

  type Recommendations = map<string, Recommendation>

  function Normalized(raw: seq<(string, RawRecommendation)>): Result<Recommendations, ReviewError> {
    if raw == [] then Ok(map[])
    else
      match Normalized(raw[..|raw| - 1])
      case Err(e) => Err(e)
      case Ok(earlier) =>
        var contentId := Strip(raw[|raw| - 1].0);
        if contentId == "" then Err(EmptyRecommendationId)
        else
          match Normalize(contentId, raw[|raw| - 1].1)
          case Err(e) => Err(e)
          case Ok(r) => Ok(earlier[contentId := r])
  }

  // ----- Building -----

  /** The reviewed crop authority of the reference run, and the crop digests of this one. */
  datatype Evidence = Evidence(authority: map<string, ReviewedAuthority.Reviewed>, crops: ReviewedAuthority.Crops)

  /** The reviewed texts of the crops that match one, in order. */
  function MatchedTexts(evidence: Evidence, refs: seq<string>): seq<string> {
    if refs == [] then []
    else
      var crop := evidence.crops(refs[|refs| - 1]);
      MatchedTexts(evidence, refs[..|refs| - 1])
      + (if crop.Some? && crop.value in evidence.authority then [evidence.authority[crop.value].text] else [])
  }

  /** The one text all matching crops agree on, or nothing. */
  function InheritedText(evidence: Evidence, refs: seq<string>): string {
    var texts := MatchedTexts(evidence, refs);
    if texts != [] && forall i :: 0 <= i < |texts| ==> texts[i] == texts[0] then texts[0] else ""
  }

  function ProposedText(o: QueueObject, inheritedText: string, r: Option<Recommendation>): string {
    var explicit := if r.Some? then Strip(r.value.text) else "";
    if explicit != "" then explicit else if inheritedText != "" then inheritedText else Strip(o.candidate)
  }

  function StatusOf(inheritedText: string, r: Option<Recommendation>): string {
    if inheritedText != "" && r.None? then CARRY_FORWARD
    else if r.Some? && Upper(r.value.decision) == INPUT_REQUIRED then INPUT_REQUIRED
    else REVIEW_REQUIRED
  }

  /** The text and the decision of a row; the decision is empty when the row needs the operator's input. */
  function Outcome(o: QueueObject, inheritedText: string, r: Option<Recommendation>): (string, string) {
    var explicit := if r.Some? then Upper(r.value.decision) else "";
    var text := if StatusOf(inheritedText, r) == INPUT_REQUIRED then "" else ProposedText(o, inheritedText, r);
    if explicit == REJECT_UI then ("", REJECT_UI)
    else if explicit == APPROVE || explicit == EDIT then (text, explicit)
    else if text != "" then (text, if text == Strip(o.candidate) then APPROVE else EDIT)
    else (text, "")
  }

  function DraftRow(o: QueueObject, evidence: Evidence, recommendations: Recommendations): Result<ProposalRow, ReviewError> {
    var contentId := Strip(o.contentId);
    var inheritedText := InheritedText(evidence, o.geometryRefs);
    var r := if contentId in recommendations then Some(recommendations[contentId]) else None;
    var (text, decision) := Outcome(o, inheritedText, r);
    if contentId == "" then Err(EmptyContentId)
    else if decision == APPROVE && text != Strip(o.candidate) then Err(ApproveChanged(contentId))
    else if decision == EDIT && text == "" then Err(EditWithoutText(contentId))
    else Ok(ProposalRow(contentId, o.geometryRefs, o.assets, Strip(o.candidate), text, decision, StatusOf(inheritedText, r), o.reviewHash))
  }

  function Drafts(objects: seq<QueueObject>, evidence: Evidence, recommendations: Recommendations): Result<seq<ProposalRow>, ReviewError> {
    if objects == [] then Ok([])
    else
      match Drafts(objects[..|objects| - 1], evidence, recommendations)
      case Err(e) => Err(e)
      case Ok(earlier) =>
        match DraftRow(objects[|objects| - 1], evidence, recommendations)
        case Err(e) => Err(e)
        case Ok(row) => Ok(earlier + [row])
  }

  function Counted(c: Counts, row: ProposalRow): Counts {
    Counts(c.objects + 1,
           if row.status == CARRY_FORWARD then c.carry + 1 else c.carry,
           if row.status != CARRY_FORWARD then c.manual + 1 else c.manual,
           if row.status == INPUT_REQUIRED then c.inputRequired + 1 else c.inputRequired,
           if row.decision == APPROVE then c.approve + 1 else c.approve,
           if row.decision == EDIT then c.edit + 1 else c.edit,
           if row.decision == REJECT_UI then c.reject + 1 else c.reject)
  }

  function CountsOf(rows: seq<ProposalRow>): Counts {
    if rows == [] then Counts(0, 0, 0, 0, 0, 0, 0) else Counted(CountsOf(rows[..|rows| - 1]), rows[|rows| - 1])
  }

  function Assembled(queue: ReviewQueue, rows: seq<ProposalRow>, counts: Counts, suggestions: nat): Proposal {
    var body := ProposalBody(OfQueueFile(queue), counts, suggestions, rows, TransitionGroups.MergeGroups(rows));
    Proposal(body, OfProposal(body))
  }

  function BuiltProposal(queue: ReviewQueue, evidence: Evidence, raw: seq<(string, RawRecommendation)>)
    : Result<Proposal, ReviewError>
  {
    match Normalized(raw)
    case Err(e) => Err(e)
    case Ok(recommendations) =>
      if exists id :: id in recommendations.Keys && id !in ObjectIds(queue.objects) then Err(UnknownSuggestions)
      else
        match Drafts(queue.objects, evidence, recommendations)
        case Err(e) => Err(e)
        case Ok(rows) => Ok(Assembled(queue, rows, CountsOf(rows), |recommendations|))
  }

  method BuildReviewProposal(queue: ReviewQueue, evidence: Evidence, raw: seq<(string, RawRecommendation)>)
    returns (r: Result<Proposal, ReviewError>)
    ensures r == BuiltProposal(queue, evidence, raw)
  {
    hide Drafts, CountsOf, ObjectIds, Normalized, TransitionGroups.MergeGroups;
    var recommendations := NormalizeRecommendations(raw);
    if recommendations.Err? {
      return Err(recommendations.error);
    }
    if exists id :: id in recommendations.value.Keys && id !in ObjectIds(queue.objects) {
      return Err(UnknownSuggestions);
    }
    var rows, counts := DraftAll(queue.objects, evidence, recommendations.value);
    if rows.Err? {
      return Err(rows.error);
    }
    var groups := TransitionGroups.TransitionMergeGroups(rows.value);
    var body := ProposalBody(OfQueueFile(queue), counts, |recommendations.value|, rows.value, groups);
    r := Ok(Proposal(body, OfProposal(body)));
  }

  method NormalizeRecommendations(raw: seq<(string, RawRecommendation)>) returns (r: Result<Recommendations, ReviewError>)
    ensures r == Normalized(raw)
  {
    hide Normalize, Strip;
    var recommendations: Recommendations := map[];
    var i := 0;
    while i < |raw|
      invariant 0 <= i <= |raw|
      invariant Normalized(raw[..i]) == Ok(recommendations)
    {
      assert raw[..i + 1][..i] == raw[..i];
      var contentId := Strip(raw[i].0);
      if contentId == "" {
        NormalizedFails(raw, i + 1);
        return Err(EmptyRecommendationId);
      }
      var recommendation := Normalize(contentId, raw[i].1);
      if recommendation.Err? {
        NormalizedFails(raw, i + 1);
        return Err(recommendation.error);
      }
      recommendations := recommendations[contentId := recommendation.value];
      i := i + 1;
    }
    assert raw[..i] == raw;
    r := Ok(recommendations);
  }

  lemma NormalizedFails(raw: seq<(string, RawRecommendation)>, n: nat)
    requires n <= |raw| && Normalized(raw[..n]).Err?
    ensures Normalized(raw) == Normalized(raw[..n])
  {
    hide Normalize, Strip;
    PrefixFails(t => Normalized(t), raw, n);
  }

  method DraftAll(objects: seq<QueueObject>, evidence: Evidence, recommendations: Recommendations)
    returns (r: Result<seq<ProposalRow>, ReviewError>, counts: Counts)
    ensures r == Drafts(objects, evidence, recommendations)
    ensures r.Ok? ==> counts == CountsOf(r.value)
  {
    hide DraftRow, Counted, CountsOf;
    var rows: seq<ProposalRow> := [];
    counts := Counts(0, 0, 0, 0, 0, 0, 0);
    NoCounts();
    var i := 0;
    while i < |objects|
      invariant 0 <= i <= |objects|
      invariant Drafts(objects[..i], evidence, recommendations) == Ok(rows)
      invariant counts == CountsOf(rows)
    {
      assert objects[..i + 1][..i] == objects[..i];
      var row := DraftRow(objects[i], evidence, recommendations);
      if row.Err? {
        DraftsFail(objects, evidence, recommendations, i + 1);
        return Err(row.error), counts;
      }
      CountsStep(rows, row.value);
      counts := Counted(counts, row.value);
      rows := rows + [row.value];
      i := i + 1;
    }
    assert objects[..i] == objects;
    r := Ok(rows);
  }

  lemma NoCounts()
    ensures CountsOf([]) == Counts(0, 0, 0, 0, 0, 0, 0)
  {
  }

  lemma CountsStep(rows: seq<ProposalRow>, row: ProposalRow)
    ensures CountsOf(rows + [row]) == Counted(CountsOf(rows), row)
  {
  }

  lemma DraftsFail(objects: seq<QueueObject>, evidence: Evidence, recommendations: Recommendations, n: nat)
    requires n <= |objects| && Drafts(objects[..n], evidence, recommendations).Err?
    ensures Drafts(objects, evidence, recommendations) == Drafts(objects[..n], evidence, recommendations)
  {
    hide DraftRow;
    PrefixFails(t => Drafts(t, evidence, recommendations), objects, n);
  }

  // ----- Validating -----

  function RowFault(row: ProposalRow): Option<ReviewError> {
    var decision, text, candidate := Upper(row.decision), Strip(row.suggested), Strip(row.candidate);
    if decision !in {"", APPROVE, EDIT, REJECT_UI} then Some(UnsupportedDecision(row.contentId))
    else if decision == APPROVE && text != candidate then Some(ApproveChanged(row.contentId))
    else if decision == EDIT && text == "" then Some(EditWithoutText(row.contentId))
    else if decision == REJECT_UI && text != "" then Some(RejectWithText(row.contentId))
    else if row.status == INPUT_REQUIRED && (decision != "" || text != "") then Some(InputRowDecided(row.contentId))
    else None
  }

  function FirstFault(rows: seq<ProposalRow>): Option<ReviewError> {
    if rows == [] then None
    else
      var earlier := FirstFault(rows[..|rows| - 1]);
      if earlier.Some? then earlier else RowFault(rows[|rows| - 1])
  }

  function ProposalFault(queue: ReviewQueue, p: Proposal): Option<ReviewError> {
    var ids := RowIds(p.body.rows);
    if !SelfHashed(p) then Some(InvalidSelfHash)
    else if p.body.queueSha != OfQueueFile(queue) then Some(StaleQueue)
    else if |Keys(ids)| != |ids| || Elements(ids) != Elements(ObjectIds(queue.objects)) then Some(NotCovering)
    else FirstFault(p.body.rows)
  }

  method ValidateReviewProposal(queue: ReviewQueue, p: Proposal) returns (fault: Option<ReviewError>)
    ensures fault == ProposalFault(queue, p)
  {
    hide RowFault, Keys, RowIds, ObjectIds;
    var ids := RowIds(p.body.rows);
    if !SelfHashed(p) {
      return Some(InvalidSelfHash);
    }
    if p.body.queueSha != OfQueueFile(queue) {
      return Some(StaleQueue);
    }
    if |Keys(ids)| != |ids| || Elements(ids) != Elements(ObjectIds(queue.objects)) {
      return Some(NotCovering);
    }
    var rows := p.body.rows;
    var i := 0;
    while i < |rows|
      invariant 0 <= i <= |rows|
      invariant FirstFault(rows[..i]).None?
    {
      assert rows[..i + 1][..i] == rows[..i];
      fault := RowFault(rows[i]);
      if fault.Some? {
        FaultStays(rows, i + 1);
        return;
      }
      i := i + 1;
    }
    assert rows[..i] == rows;
    fault := None;
  }

  lemma {:induction false} FaultStays(rows: seq<ProposalRow>, n: nat)
    requires n <= |rows| && FirstFault(rows[..n]).Some?
    ensures FirstFault(rows) == FirstFault(rows[..n])
  {
    hide RowFault;
    if n < |rows| {
      assert rows[..|rows| - 1][..n] == rows[..n];
      FaultStays(rows[..|rows| - 1], n);
    } else {
      assert rows[..n] == rows;
    }
  }

  // ----- Materializing -----

  predicate Materializable(row: ProposalRow) {
    var decision := Upper(row.decision);
    && Strip(row.contentId) != "" && decision in {APPROVE, EDIT, REJECT_UI}
    && (decision == REJECT_UI || Strip(row.suggested) != "")
  }

  function DecisionOf(row: ProposalRow): Decision {
    Decision(Strip(row.contentId), Upper(row.decision), Strip(row.suggested))
  }

  function Decisions(rows: seq<ProposalRow>): Result<seq<Decision>, ReviewError> {
    if rows == [] then Ok([])
    else
      var last := rows[|rows| - 1];
      match Decisions(rows[..|rows| - 1])
      case Err(e) => Err(e)
      case Ok(earlier) =>
        if Materializable(last) then Ok(earlier + [DecisionOf(last)]) else Err(NotMaterializable(Strip(last.contentId)))
  }

  function DecisionsFor(p: Proposal, reviewer: string, reviewedAt: string, decisions: seq<Decision>): DecisionSet {
    var body := DecisionBody(p.body.queueSha, reviewer, reviewedAt, OfProposalFile(p), p.selfSha, decisions);
    DecisionSet(body, OfDecisions(body))
  }

  function Materialized(queue: ReviewQueue, p: Proposal, approvedSha: Hash, reviewer: string, reviewedAt: string): Result<DecisionSet, ReviewError> {
    var fault := ProposalFault(queue, p);
    if fault.Some? then Err(fault.value)
    else if approvedSha != p.selfSha then Err(AnotherProposal)
    else if Strip(reviewer) == "" || Strip(reviewedAt) == "" then Err(MissingReviewer)
    else
      match Decisions(p.body.rows)
      case Err(e) => Err(e)
      case Ok(decisions) => Ok(DecisionsFor(p, Strip(reviewer), Strip(reviewedAt), decisions))
  }

  method MaterializeApprovedProposal(queue: ReviewQueue, p: Proposal, approvedSha: Hash, reviewer: string, reviewedAt: string)
    returns (r: Result<DecisionSet, ReviewError>)
    ensures r == Materialized(queue, p, approvedSha, reviewer, reviewedAt)
  {
    hide Materializable, DecisionOf, Strip, ProposalFault, DecisionsFor;
    var fault := ValidateReviewProposal(queue, p);
    if fault.Some? {
      return Err(fault.value);
    }
    if approvedSha != p.selfSha {
      return Err(AnotherProposal);
    }
    if Strip(reviewer) == "" || Strip(reviewedAt) == "" {
      return Err(MissingReviewer);
    }
    var rows := p.body.rows;
    var decisions: seq<Decision> := [];
    var i := 0;
    while i < |rows|
      invariant 0 <= i <= |rows|
      invariant Decisions(rows[..i]) == Ok(decisions)
    {
      assert rows[..i + 1][..i] == rows[..i];
      if !Materializable(rows[i]) {
        DecisionsFail(rows, i + 1);
        return Err(NotMaterializable(Strip(rows[i].contentId)));
      }
      decisions := decisions + [DecisionOf(rows[i])];
      i := i + 1;
    }
    assert rows[..i] == rows;
    r := Ok(DecisionsFor(p, Strip(reviewer), Strip(reviewedAt), decisions));
  }

  lemma DecisionsFail(rows: seq<ProposalRow>, n: nat)
    requires n <= |rows| && Decisions(rows[..n]).Err?
    ensures Decisions(rows) == Decisions(rows[..n])
  {
    hide Materializable, DecisionOf, Strip;
    PrefixFails(t => Decisions(t), rows, n);
  }
}
