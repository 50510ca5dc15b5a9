/** The rows of a Phase 2 proposal and the groups in which they may be merged. */
module Phase2Rows {

  datatype Span = Span(start: int, end: int)

  datatype ProposalRow = ProposalRow(contentId: string, geometryRefs: seq<string>, assets: seq<Span>, candidate: string,
                                     suggested: string, decision: string, status: string, reviewHash: string)

  /** Rows that repeat one text over touching frames; they are merged once the operator approves exactly that. */
  datatype MergeGroup = MergeGroup(canonicalId: string, sourceIds: seq<string>, geometryRefs: seq<string>, suggested: string)

  const APPROVE := "APPROVE"

  const EDIT := "EDIT"

  const REJECT_UI := "REJECT_UI"

  const INPUT_REQUIRED := "OPERATOR_INPUT_REQUIRED"

  const CARRY_FORWARD := "CARRY_FORWARD_ELIGIBLE"

  const REVIEW_REQUIRED := "OPERATOR_REVIEW_REQUIRED"

  lemma WordsDiffer()
    ensures APPROVE != EDIT && APPROVE != REJECT_UI && APPROVE != INPUT_REQUIRED && EDIT != REJECT_UI && EDIT != INPUT_REQUIRED
    ensures REJECT_UI != INPUT_REQUIRED && APPROVE != "" && EDIT != "" && REJECT_UI != "" && INPUT_REQUIRED != ""
    ensures CARRY_FORWARD != INPUT_REQUIRED && CARRY_FORWARD != REVIEW_REQUIRED && INPUT_REQUIRED != REVIEW_REQUIRED
  {
  }
}
