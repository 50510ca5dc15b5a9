/** Build, validate, materialize, apply: which Phase 2 proposals make it through the whole chain, and with what result. */
module Phase2Chain {
  import opened Prelude
  import opened Text
  import opened Keyed
  import opened Phase2Rows
  import opened Phase2Review
  import ReviewedAuthority
  import TransitionGroups

  // ----- What the build promises about its rows -----

  /** The reviewed texts are non-empty and trimmed. */
  ghost predicate TrimmedAuthority(authority: map<string, ReviewedAuthority.Reviewed>) {
    forall key :: key in authority ==> Trimmed(authority[key].text)
  }

  predicate Trimmed(text: string) { text != "" && Strip(text) == text }

  lemma ReviewedTextIsTrimmed(approvals: seq<ReviewedAuthority.Approval>, id: string)
    requires id in ReviewedAuthority.ById(approvals)
    ensures Trimmed(ReviewedAuthority.ById(approvals)[id].text)
  {
    ReviewedAuthority.ByIdHolds(approvals, id);
    var a :| a in approvals && ReviewedAuthority.Usable(a) && ReviewedAuthority.ById(approvals)[id] == ReviewedAuthority.ReviewedBy(a);
    UsableIsTrimmed(a);
  }

  lemma UsableIsTrimmed(a: ReviewedAuthority.Approval)
    requires ReviewedAuthority.Usable(a)
    ensures Trimmed(ReviewedAuthority.ReviewedBy(a).text)
  {
    StripIsIdempotent(a.text);
    hide Strip, Upper;
  }

  lemma CropAuthorityIsTrimmed(approvals: seq<ReviewedAuthority.Approval>, timeline: seq<ReviewedAuthority.TimelineObject>,
                               crops: ReviewedAuthority.Crops)
    ensures TrimmedAuthority(ReviewedAuthority.CropAuthority(approvals, timeline, crops))
  {
    var byId := ReviewedAuthority.ById(approvals);
    var claims := ReviewedAuthority.CropClaims(byId, timeline, crops);
    var authority := ReviewedAuthority.CropAuthority(approvals, timeline, crops);
    forall key | key in authority
      ensures Trimmed(authority[key].text)
    {
      ReviewedAuthority.RegistryTracks(claims, ReviewedAuthority.TEXT_OF, key);
      ReviewedAuthority.CropClaimsShow(byId, timeline, crops, ReviewedAuthority.Claim(key, authority[key]));
      var o, ref :| o in timeline && ref in o.geometryRefs && o.contentId in byId && byId[o.contentId] == authority[key]
                    && crops(ref) == Some(key);
      ReviewedTextIsTrimmed(approvals, o.contentId);
    }
  }

  lemma {:induction false} MatchedAreTrimmed(evidence: Evidence, refs: seq<string>)
    requires TrimmedAuthority(evidence.authority)
    ensures forall i :: 0 <= i < |MatchedTexts(evidence, refs)| ==> Trimmed(MatchedTexts(evidence, refs)[i])
  {
    hide Trimmed;
    if refs != [] {
      MatchedAreTrimmed(evidence, refs[..|refs| - 1]);
    }
  }

  /** A normalized recommendation. */
  predicate SoundRecommendation(r: Recommendation) {
    && r.decision in {"", APPROVE, EDIT, REJECT_UI, INPUT_REQUIRED} && Upper(r.decision) == r.decision && Strip(r.text) == r.text
    && (r.decision == EDIT ==> r.text != "") && (r.decision in {REJECT_UI, INPUT_REQUIRED} ==> r.text == "")
  }

  lemma NormalizeIsSound(contentId: string, raw: RawRecommendation)
    ensures Normalize(contentId, raw).Ok? ==> SoundRecommendation(Normalize(contentId, raw).value)
  {
    if raw.Structured? {
      UpperIsIdempotent(Strip(raw.decision));
    }
    if !raw.Unusable? {
      StripIsIdempotent(raw.text);
    }
    assert Upper("") == "";
    hide Upper, Strip;
  }

  ghost predicate SoundRecommendations(recommendations: Recommendations) {
    forall id :: id in recommendations ==> SoundRecommendation(recommendations[id])
  }

  lemma {:induction false} NormalizedAreSound(raw: seq<(string, RawRecommendation)>)
    requires Normalized(raw).Ok?
    ensures SoundRecommendations(Normalized(raw).value)
  {
    hide Normalize, SoundRecommendation, Strip;
    if raw != [] {
      NormalizedAreSound(raw[..|raw| - 1]);
      NormalizeIsSound(Strip(raw[|raw| - 1].0), raw[|raw| - 1].1);
    }
  }

  /** A drafted row stands for its object, is trimmed, and has nothing the validation would object to. */
  predicate DraftOf(o: QueueObject, row: ProposalRow) {
    && row.contentId == Strip(o.contentId) && row.contentId != ""
    && row.candidate == Strip(o.candidate) && Strip(row.suggested) == row.suggested
    && row.decision in {"", APPROVE, EDIT, REJECT_UI} && Upper(row.decision) == row.decision
    && (row.decision == APPROVE ==> row.suggested == row.candidate)
    && (row.decision == EDIT ==> row.suggested != "")
    && (row.decision == REJECT_UI ==> row.suggested == "")
    && (row.status == INPUT_REQUIRED ==> row.decision == "" && row.suggested == "")
    && (row.decision == "" ==> row.suggested == "")
  }

  lemma InheritedIsTrimmed(evidence: Evidence, refs: seq<string>)
    requires TrimmedAuthority(evidence.authority)
    ensures var text := InheritedText(evidence, refs); Strip(text) == text
  {
    MatchedAreTrimmed(evidence, refs);
    hide Strip, MatchedTexts;
  }

  function RecommendationFor(o: QueueObject, recommendations: Recommendations): Option<Recommendation> {
    var id := Strip(o.contentId);
    if id in recommendations then Some(recommendations[id]) else None
  }

  /** What the outcome of a row guarantees before the checks of the build. */
  predicate SoundOutcome(text: string, decision: string, status: string) {
    && Strip(text) == text && decision in {"", APPROVE, EDIT, REJECT_UI} && Upper(decision) == decision
    && (decision == REJECT_UI ==> text == "") && (decision == "" ==> text == "")
    && (status == INPUT_REQUIRED ==> decision == "" && text == "")
  }

  lemma CheckedOutcome(o: QueueObject, text: string, decision: string, status: string)
    requires SoundOutcome(text, decision, status) && Strip(o.contentId) != ""
    requires !(decision == APPROVE && text != Strip(o.candidate)) && !(decision == EDIT && text == "")
    ensures DraftOf(o, ProposalRow(Strip(o.contentId), o.geometryRefs, o.assets, Strip(o.candidate), text, decision, status, o.reviewHash))
  {
  }

  lemma DraftRowDrafts(o: QueueObject, evidence: Evidence, recommendations: Recommendations)
    requires TrimmedAuthority(evidence.authority) && SoundRecommendations(recommendations)
    ensures var r := DraftRow(o, evidence, recommendations); r.Ok? ==> DraftOf(o, r.value)
  {
    InheritedIsTrimmed(evidence, o.geometryRefs);
    var r := RecommendationFor(o, recommendations);
    assert r.Some? ==> SoundRecommendation(r.value);
    hide Upper, Strip, InheritedText, TrimmedAuthority, Outcome, StatusOf, SoundRecommendation, SoundRecommendations, SoundOutcome, DraftOf;
    var inheritedText := InheritedText(evidence, o.geometryRefs);
    OutcomeIsTrimmed(o, inheritedText, r);
    if DraftRow(o, evidence, recommendations).Ok? {
      var (text, decision) := Outcome(o, inheritedText, r);
      CheckedOutcome(o, text, decision, StatusOf(inheritedText, r));
    }
  }

  lemma OutcomeIsTrimmed(o: QueueObject, inheritedText: string, r: Option<Recommendation>)
    requires Strip(inheritedText) == inheritedText && (r.Some? ==> SoundRecommendation(r.value))
    ensures var (text, decision) := Outcome(o, inheritedText, r); SoundOutcome(text, decision, StatusOf(inheritedText, r))
  {
    StripIsIdempotent(o.candidate);
    hide Upper, Strip;
  }

  ghost predicate Pairs(objects: seq<QueueObject>, rows: seq<ProposalRow>) {
    |rows| == |objects| && forall i :: 0 <= i < |objects| ==> DraftOf(objects[i], rows[i])
  }

  lemma {:induction false} DraftsPair(objects: seq<QueueObject>, evidence: Evidence, recommendations: Recommendations)
    requires TrimmedAuthority(evidence.authority) && SoundRecommendations(recommendations)
    requires Drafts(objects, evidence, recommendations).Ok?
    ensures Pairs(objects, Drafts(objects, evidence, recommendations).value)
  {
    hide DraftRow, DraftOf, TrimmedAuthority, SoundRecommendations;
    if objects != [] {
      DraftsPair(objects[..|objects| - 1], evidence, recommendations);
      DraftRowDrafts(objects[|objects| - 1], evidence, recommendations);
    }
  }

  /** Everything a built proposal promises about its queue. */
  ghost predicate BuiltFor(queue: ReviewQueue, p: Proposal) {
    && SelfHashed(p) && p.body.queueSha == OfQueueFile(queue) && Pairs(queue.objects, p.body.rows)
    && p.body.counts == CountsOf(p.body.rows)
  }

  // ----- Which text and which decision a row gets -----

  /** The recommendation stored for an id; of several whose ids trim to it the last counts. */
  function RawFor(raw: seq<(string, RawRecommendation)>, id: string): Option<RawRecommendation> {
    if raw == [] then None
    else if Strip(raw[|raw| - 1].0) == id then Some(raw[|raw| - 1].1)
    else RawFor(raw[..|raw| - 1], id)
  }

  /** The recommended text, trimmed; empty when nothing is recommended. */
  function TextIn(r: Option<RawRecommendation>): string {
    match r
    case Some(Suggested(text)) => Strip(text)
    case Some(Structured(_, text)) => Strip(text)
    case _ => ""
  }

  /** The recommended decision; a bare text recommends none. */
  function DecisionIn(r: Option<RawRecommendation>): string {
    match r
    case Some(Structured(decision, _)) => Upper(Strip(decision))
    case _ => ""
  }

  /** A recommendation the build can use: a text, or a known decision with the text it needs and no text it excludes. */
  predicate Acceptable(r: RawRecommendation) {
    match r
    case Unusable => false
    case Suggested(text) => Strip(text) != ""
    case Structured(rawDecision, rawText) =>
      var decision, text := Upper(Strip(rawDecision)), Strip(rawText);
      && decision in {"", APPROVE, EDIT, REJECT_UI, INPUT_REQUIRED}
      && (decision == EDIT ==> text != "") && (decision in {REJECT_UI, INPUT_REQUIRED} ==> text == "")
  }

  lemma {:induction false} NormalizedAt(raw: seq<(string, RawRecommendation)>, id: string)
    requires Normalized(raw).Ok?
    ensures var recommendations := Normalized(raw).value;
      && (id in recommendations <==> RawFor(raw, id).Some?)
      && (id in recommendations ==> recommendations[id] == Recommendation(DecisionIn(RawFor(raw, id)), TextIn(RawFor(raw, id))))
  {
    hide Strip, Upper;
    if raw != [] {
      NormalizedAt(raw[..|raw| - 1], id);
    }
  }

  lemma {:induction false} WhenNormalized(raw: seq<(string, RawRecommendation)>)
    ensures Normalized(raw).Ok? <==> forall i :: 0 <= i < |raw| ==> Strip(raw[i].0) != "" && Acceptable(raw[i].1)
    ensures Normalized(raw).Ok? ==> forall id :: id in Normalized(raw).value <==> exists i :: 0 <= i < |raw| && Strip(raw[i].0) == id
  {
    hide Strip, Normalize, Acceptable;
    if raw != [] {
      var n := |raw| - 1;
      WhenNormalized(raw[..n]);
      WhenAcceptable(Strip(raw[n].0), raw[n].1);
      assert forall i :: 0 <= i < n ==> raw[..n][i] == raw[i];
    }
  }

  lemma WhenAcceptable(id: string, r: RawRecommendation)
    ensures Normalize(id, r).Ok? <==> Acceptable(r)
    ensures Normalize(id, r).Err? ==> Normalize(id, r).error == InvalidRecommendation(id)
  {
    hide Strip, Upper;
  }

  /** Every crop that matches shows this text, and some crop does. */
  predicate AgreeOn(texts: seq<string>, text: string) { texts != [] && forall i :: 0 <= i < |texts| ==> texts[i] == text }

  /** The crop of the reference is reviewed, as this text. */
  predicate CropShows(evidence: Evidence, ref: string, text: string) {
    && evidence.crops(ref).Some? && evidence.crops(ref).value in evidence.authority
    && evidence.authority[evidence.crops(ref).value].text == text
  }

  lemma {:induction false} MatchedTextsAre(evidence: Evidence, refs: seq<string>, text: string)
    ensures text in MatchedTexts(evidence, refs) <==> exists ref :: ref in refs && CropShows(evidence, ref, text)
  {
    if refs != [] {
      var front, last := refs[..|refs| - 1], refs[|refs| - 1];
      MatchedTextsAre(evidence, front, text);
      assert forall ref :: ref in refs <==> ref in front || ref == last by {
        assert refs == front + [last];
      }
      assert CropShows(evidence, last, text) ==> evidence.crops(last).Some? && evidence.crops(last).value in evidence.authority;
    }
  }

  /** The matched crops agree on a text exactly when some reference shows it and every reviewed one does. */
  lemma WhenCropsAgree(evidence: Evidence, refs: seq<string>, text: string)
    ensures AgreeOn(MatchedTexts(evidence, refs), text) <==>
      && (exists ref :: ref in refs && CropShows(evidence, ref, text))
      && forall ref, other :: ref in refs && CropShows(evidence, ref, other) ==> other == text
  {
    var texts := MatchedTexts(evidence, refs);
    forall t
      ensures t in texts <==> exists ref :: ref in refs && CropShows(evidence, ref, t)
    {
      MatchedTextsAre(evidence, refs, t);
    }
    hide MatchedTexts, CropShows;
    if AgreeOn(texts, text) {
      assert texts[0] in texts;
      forall ref, other | ref in refs && CropShows(evidence, ref, other)
        ensures other == text
      {
        assert other in texts;
      }
    }
    if (exists ref :: ref in refs && CropShows(evidence, ref, text))
       && forall ref, other :: ref in refs && CropShows(evidence, ref, other) ==> other == text {
      assert text in texts;
      forall i | 0 <= i < |texts|
        ensures texts[i] == text
      {
        assert texts[i] in texts;
      }
    }
  }

  /** The text for an object: recommended, else agreed on by all matching crops, else the candidate; none for a rejection or an input. */
  ghost predicate TextChosen(o: QueueObject, texts: seq<string>, r: Option<RawRecommendation>, text: string) {
    if DecisionIn(r) in {REJECT_UI, INPUT_REQUIRED} then text == ""
    else if TextIn(r) != "" then text == TextIn(r)
    else if exists agreed :: AgreeOn(texts, agreed) then AgreeOn(texts, text)
    else text == Strip(o.candidate)
  }

  /** The decision on that text: the recommended one, else by comparison with the candidate, and none without text. */
  predicate DecisionChosen(o: QueueObject, r: Option<RawRecommendation>, text: string, decision: string) {
    if DecisionIn(r) in {APPROVE, EDIT, REJECT_UI} then decision == DecisionIn(r)
    else decision == if text == "" then "" else if text == Strip(o.candidate) then APPROVE else EDIT
  }

  /** Carried forward without a recommendation when the crops agree; left open only on demand. */
  ghost predicate StatusChosen(texts: seq<string>, r: Option<RawRecommendation>, status: string) {
    && (status == CARRY_FORWARD <==> r.None? && exists agreed :: AgreeOn(texts, agreed))
    && (status == INPUT_REQUIRED <==> DecisionIn(r) == INPUT_REQUIRED)
    && status in {CARRY_FORWARD, INPUT_REQUIRED, REVIEW_REQUIRED}
  }

  ghost predicate RowChosen(o: QueueObject, texts: seq<string>, r: Option<RawRecommendation>, row: ProposalRow) {
    && TextChosen(o, texts, r, row.suggested) && DecisionChosen(o, r, row.suggested, row.decision) && StatusChosen(texts, r, row.status)
    && row.geometryRefs == o.geometryRefs && row.assets == o.assets && row.reviewHash == o.reviewHash
  }

  /** Every row of the proposal is chosen from its object, its matching crops and its recommendation. */
  ghost predicate RowsChosen(objects: seq<QueueObject>, evidence: Evidence, raw: seq<(string, RawRecommendation)>, rows: seq<ProposalRow>) {
    |rows| == |objects| && forall i :: 0 <= i < |objects| ==>
      RowChosen(objects[i], MatchedTexts(evidence, objects[i].geometryRefs), RawFor(raw, Strip(objects[i].contentId)), rows[i])
  }

  /** The inherited text is the one all matching crops agree on, and empty without agreement. */
  ghost predicate IsAgreed(texts: seq<string>, inheritedText: string) {
    if inheritedText == "" then forall agreed :: !AgreeOn(texts, agreed) else forall agreed :: AgreeOn(texts, agreed) <==> agreed == inheritedText
  }

  lemma InheritedIsAgreed(evidence: Evidence, refs: seq<string>)
    requires TrimmedAuthority(evidence.authority)
    ensures IsAgreed(MatchedTexts(evidence, refs), InheritedText(evidence, refs))
  {
    MatchedAreTrimmed(evidence, refs);
    var texts := MatchedTexts(evidence, refs);
    hide MatchedTexts, Strip;
    if texts != [] {
      assert Trimmed(texts[0]);
      assert forall agreed :: AgreeOn(texts, agreed) ==> agreed == texts[0];
    }
  }

  function TextBy(decision: string, text: string, inheritedText: string, candidate: string): string {
    if decision == REJECT_UI || decision == INPUT_REQUIRED then ""
    else if text != "" then text else if inheritedText != "" then inheritedText else candidate
  }

  function DecisionBy(decision: string, text: string, candidate: string): string {
    if decision == APPROVE || decision == EDIT || decision == REJECT_UI then decision
    else if text == "" then "" else if text == candidate then APPROVE else EDIT
  }

  function StatusBy(decision: string, recommended: bool, inheritedText: string): string {
    if inheritedText != "" && !recommended then CARRY_FORWARD else if decision == INPUT_REQUIRED then INPUT_REQUIRED else REVIEW_REQUIRED
  }

  /** The outcome by cases, for the trimmed text and decision of a recommendation, both empty without one. */
  lemma OutcomeByCases(o: QueueObject, inheritedText: string, r: Option<Recommendation>, decision: string, text: string)
    requires if r.Some? then r.value == Recommendation(decision, text) else decision == "" && text == ""
    requires Upper(decision) == decision && Strip(text) == text
    requires decision == REJECT_UI || decision == INPUT_REQUIRED ==> text == ""
    ensures var chosen := TextBy(decision, text, inheritedText, Strip(o.candidate));
      Outcome(o, inheritedText, r) == (chosen, DecisionBy(decision, chosen, Strip(o.candidate)))
    ensures StatusOf(inheritedText, r) == StatusBy(decision, r.Some?, inheritedText)
  {
    assert Upper("") == "";
    WordsDiffer();
    hide Strip, Upper, APPROVE, EDIT, REJECT_UI, INPUT_REQUIRED, CARRY_FORWARD, REVIEW_REQUIRED, ProposedText, StatusOf;
    TextAndStatus(o, inheritedText, r, decision, text);
  }

  lemma TextAndStatus(o: QueueObject, inheritedText: string, r: Option<Recommendation>, decision: string, text: string)
    requires if r.Some? then r.value == Recommendation(decision, text) else decision == "" && text == ""
    requires Upper(decision) == decision && Strip(text) == text
    ensures ProposedText(o, inheritedText, r) == if text != "" then text else if inheritedText != "" then inheritedText else Strip(o.candidate)
    ensures StatusOf(inheritedText, r) == StatusBy(decision, r.Some?, inheritedText)
  {
    WordsDiffer();
    hide Strip, Upper, APPROVE, EDIT, REJECT_UI, INPUT_REQUIRED, CARRY_FORWARD, REVIEW_REQUIRED;
  }

  /** What an acceptable recommendation is after trimming. */
  lemma AcceptableParts(r: Option<RawRecommendation>)
    requires r.Some? ==> Acceptable(r.value)
    ensures Upper(DecisionIn(r)) == DecisionIn(r) && Strip(TextIn(r)) == TextIn(r)
    ensures DecisionIn(r) == REJECT_UI || DecisionIn(r) == INPUT_REQUIRED ==> TextIn(r) == ""
    ensures DecisionIn(r) == EDIT ==> TextIn(r) != ""
  {
    if r.Some? && r.value.Structured? {
      StripIsIdempotent(r.value.text);
      UpperIsIdempotent(Strip(r.value.decision));
    }
    if r.Some? && r.value.Suggested? {
      StripIsIdempotent(r.value.text);
    }
    assert Upper("") == "" && Strip("") == "";
    hide Strip, Upper;
  }

  /** A raw recommendation as the build keeps it. */
  predicate KeptAs(r: Option<RawRecommendation>, normalized: Option<Recommendation>) {
    normalized == if r.Some? then Some(Recommendation(DecisionIn(r), TextIn(r))) else None
  }

  lemma OutcomeIsChosen(o: QueueObject, inheritedText: string, texts: seq<string>, r: Option<RawRecommendation>, normalized: Option<Recommendation>)
    requires IsAgreed(texts, inheritedText) && (r.Some? ==> Acceptable(r.value)) && KeptAs(r, normalized)
    ensures TextChosen(o, texts, r, Outcome(o, inheritedText, normalized).0)
    ensures DecisionChosen(o, r, Outcome(o, inheritedText, normalized).0, Outcome(o, inheritedText, normalized).1)
    ensures StatusChosen(texts, r, StatusOf(inheritedText, normalized))
  {
    AcceptableParts(r);
    NothingRecommended(r);
    hide *;
    KeptParts(r, normalized);
    OutcomeByCases(o, inheritedText, normalized, DecisionIn(r), TextIn(r));
    TextIsChosen(o, inheritedText, texts, r, Outcome(o, inheritedText, normalized).0);
    DecisionIsChosen(o, r, Outcome(o, inheritedText, normalized).0, Outcome(o, inheritedText, normalized).1);
    StatusIsChosen(inheritedText, texts, r, StatusOf(inheritedText, normalized));
  }

  lemma KeptParts(r: Option<RawRecommendation>, normalized: Option<Recommendation>)
    requires KeptAs(r, normalized)
    ensures normalized.Some? <==> r.Some?
    ensures normalized.Some? ==> normalized.value == Recommendation(DecisionIn(r), TextIn(r))
  {
  }

  lemma TextIsChosen(o: QueueObject, inheritedText: string, texts: seq<string>, r: Option<RawRecommendation>, text: string)
    requires IsAgreed(texts, inheritedText)
    requires text == TextBy(DecisionIn(r), TextIn(r), inheritedText, Strip(o.candidate))
    ensures TextChosen(o, texts, r, text)
  {
    hide Strip, AgreeOn, DecisionIn, TextIn;
  }

  lemma DecisionIsChosen(o: QueueObject, r: Option<RawRecommendation>, text: string, decision: string)
    requires decision == DecisionBy(DecisionIn(r), text, Strip(o.candidate))
    ensures DecisionChosen(o, r, text, decision)
  {
    hide Strip, DecisionIn;
  }

  lemma StatusIsChosen(inheritedText: string, texts: seq<string>, r: Option<RawRecommendation>, status: string)
    requires IsAgreed(texts, inheritedText) && (r.None? ==> DecisionIn(r) == "")
    requires status == StatusBy(DecisionIn(r), r.Some?, inheritedText)
    ensures StatusChosen(texts, r, status)
  {
    WordsDiffer();
    hide AgreeOn, DecisionIn, APPROVE, EDIT, REJECT_UI, INPUT_REQUIRED, CARRY_FORWARD, REVIEW_REQUIRED;
    if inheritedText != "" {
      assert AgreeOn(texts, inheritedText);
    }
  }

  lemma NothingRecommended(r: Option<RawRecommendation>)
    ensures r.None? ==> DecisionIn(r) == "" && TextIn(r) == ""
  {
  }

  /** A row is drafted exactly when its object has an id and a recommended APPROVE comes out at the candidate; then it is chosen. */
  lemma WhenRowIsDrafted(o: QueueObject, evidence: Evidence, raw: seq<(string, RawRecommendation)>)
    requires TrimmedAuthority(evidence.authority) && Normalized(raw).Ok?
    ensures var r, texts := RawFor(raw, Strip(o.contentId)), MatchedTexts(evidence, o.geometryRefs);
      var drafted := DraftRow(o, evidence, Normalized(raw).value);
      && (drafted.Ok? <==> Drafted(o, texts, r))
      && (drafted.Ok? ==> RowChosen(o, texts, r, drafted.value))
  {
    var normalized := RecommendationFor(o, Normalized(raw).value);
    RecommendationIsKept(o, raw);
    hide *;
    RawIsAcceptable(raw, Strip(o.contentId));
    InheritedIsAgreed(evidence, o.geometryRefs);
    var inheritedText, texts, r := InheritedText(evidence, o.geometryRefs), MatchedTexts(evidence, o.geometryRefs), RawFor(raw, Strip(o.contentId));
    OutcomeIsChosen(o, inheritedText, texts, r, normalized);
    var text, decision := Outcome(o, inheritedText, normalized).0, Outcome(o, inheritedText, normalized).1;
    ChosenIsUnique(o, texts, r, text);
    ChosenDecisionAccepts(o, texts, r, text, decision);
    DraftRowIs(o, evidence, Normalized(raw).value);
    DraftedIs(o, texts, r, text);
    if DraftRow(o, evidence, Normalized(raw).value).Ok? {
      ChosenRow(o, texts, r, DraftRow(o, evidence, Normalized(raw).value).value);
    }
  }

  lemma RecommendationIsKept(o: QueueObject, raw: seq<(string, RawRecommendation)>)
    requires Normalized(raw).Ok?
    ensures KeptAs(RawFor(raw, Strip(o.contentId)), RecommendationFor(o, Normalized(raw).value))
  {
    NormalizedAt(raw, Strip(o.contentId));
    hide Strip, Normalized, RawFor;
  }

  lemma DraftRowIs(o: QueueObject, evidence: Evidence, recommendations: Recommendations)
    ensures var inheritedText, normalized := InheritedText(evidence, o.geometryRefs), RecommendationFor(o, recommendations);
      var text, decision := Outcome(o, inheritedText, normalized).0, Outcome(o, inheritedText, normalized).1;
      var r := DraftRow(o, evidence, recommendations);
      && (r.Ok? <==> Strip(o.contentId) != "" && !(decision == APPROVE && text != Strip(o.candidate)) && !(decision == EDIT && text == ""))
      && (r.Ok? ==> r.value == ProposalRow(Strip(o.contentId), o.geometryRefs, o.assets, Strip(o.candidate), text, decision,
                                           StatusOf(inheritedText, normalized), o.reviewHash))
  {
    hide Strip, InheritedText, Outcome, StatusOf;
  }

  lemma DraftedIs(o: QueueObject, texts: seq<string>, r: Option<RawRecommendation>, text: string)
    requires forall other :: TextChosen(o, texts, r, other) <==> other == text
    ensures Drafted(o, texts, r) <==> Strip(o.contentId) != "" && (DecisionIn(r) == APPROVE ==> text == Strip(o.candidate))
  {
    hide TextChosen, Strip, DecisionIn;
  }

  lemma ChosenRow(o: QueueObject, texts: seq<string>, r: Option<RawRecommendation>, row: ProposalRow)
    requires TextChosen(o, texts, r, row.suggested) && DecisionChosen(o, r, row.suggested, row.decision) && StatusChosen(texts, r, row.status)
    requires row.geometryRefs == o.geometryRefs && row.assets == o.assets && row.reviewHash == o.reviewHash
    ensures RowChosen(o, texts, r, row)
  {
    hide TextChosen, DecisionChosen, StatusChosen;
  }

  /** The object has an id, and a recommended APPROVE comes out at its candidate. */
  ghost predicate Drafted(o: QueueObject, texts: seq<string>, r: Option<RawRecommendation>) {
    && Strip(o.contentId) != ""
    && (DecisionIn(r) == APPROVE ==> TextChosen(o, texts, r, Strip(o.candidate)))
  }

  lemma ChosenIsUnique(o: QueueObject, texts: seq<string>, r: Option<RawRecommendation>, text: string)
    requires TextChosen(o, texts, r, text)
    ensures forall other :: TextChosen(o, texts, r, other) <==> other == text
  {
    hide Strip, Upper, DecisionIn, TextIn;
    forall other | AgreeOn(texts, other) && AgreeOn(texts, text)
      ensures other == text
    {
      assert texts[0] == text;
    }
  }

  /** The two checks of the build come down to one: an APPROVE must come out at the candidate. */
  lemma ChosenDecisionAccepts(o: QueueObject, texts: seq<string>, r: Option<RawRecommendation>, text: string, decision: string)
    requires TextChosen(o, texts, r, text) && DecisionChosen(o, r, text, decision) && (r.Some? ==> Acceptable(r.value))
    ensures !(decision == APPROVE && text != Strip(o.candidate)) <==> (DecisionIn(r) == APPROVE ==> text == Strip(o.candidate))
    ensures !(decision == EDIT && text == "")
  {
    AcceptableParts(r);
    WordsDiffer();
    hide Strip, Upper, DecisionIn, TextIn, Acceptable, APPROVE, EDIT, REJECT_UI, INPUT_REQUIRED, CARRY_FORWARD, REVIEW_REQUIRED;
  }

  lemma {:induction false} RawIsAcceptable(raw: seq<(string, RawRecommendation)>, id: string)
    requires Normalized(raw).Ok?
    ensures RawFor(raw, id).Some? ==> Acceptable(RawFor(raw, id).value)
  {
    hide Strip, Normalize, Acceptable;
    if raw != [] {
      RawIsAcceptable(raw[..|raw| - 1], id);
      WhenAcceptable(Strip(raw[|raw| - 1].0), raw[|raw| - 1].1);
    }
  }

  lemma {:induction false} WhenRowsAreDrafted(objects: seq<QueueObject>, evidence: Evidence, raw: seq<(string, RawRecommendation)>)
    requires TrimmedAuthority(evidence.authority) && Normalized(raw).Ok?
    ensures var r := Drafts(objects, evidence, Normalized(raw).value);
      && (r.Ok? <==> forall i :: 0 <= i < |objects| ==>
            Drafted(objects[i], MatchedTexts(evidence, objects[i].geometryRefs), RawFor(raw, Strip(objects[i].contentId))))
      && (r.Ok? ==> RowsChosen(objects, evidence, raw, r.value))
  {
    hide DraftRow, Normalized, Drafted, RowChosen, MatchedTexts, RawFor, Strip, TrimmedAuthority;
    if objects != [] {
      var n := |objects| - 1;
      WhenRowsAreDrafted(objects[..n], evidence, raw);
      WhenRowIsDrafted(objects[n], evidence, raw);
      assert forall i :: 0 <= i < n ==> objects[..n][i] == objects[i];
    }
  }

  /** One for every row with this status, respectively this decision. */
  function WithStatus(status: string): ProposalRow -> int { (row: ProposalRow) => if row.status == status then 1 else 0 }

  function WithDecision(decision: string): ProposalRow -> int { (row: ProposalRow) => if row.decision == decision then 1 else 0 }

  ghost predicate CountsRows(c: Counts, rows: seq<ProposalRow>) {
    && c.objects == |rows| && c.carry == Total(rows, WithStatus(CARRY_FORWARD)) && c.manual == |rows| - c.carry
    && c.inputRequired == Total(rows, WithStatus(INPUT_REQUIRED)) && c.approve == Total(rows, WithDecision(APPROVE))
    && c.edit == Total(rows, WithDecision(EDIT)) && c.reject == Total(rows, WithDecision(REJECT_UI))
  }

  lemma {:induction false} CountsAreTotals(rows: seq<ProposalRow>)
    ensures CountsRows(CountsOf(rows), rows)
  {
    hide Total;
    if rows == [] {
      NoRowsCounted();
    } else {
      CountsAreTotals(rows[..|rows| - 1]);
      TotalStep(rows, WithStatus(CARRY_FORWARD));
      TotalStep(rows, WithStatus(INPUT_REQUIRED));
      TotalStep(rows, WithDecision(APPROVE));
      TotalStep(rows, WithDecision(EDIT));
      TotalStep(rows, WithDecision(REJECT_UI));
    }
  }

  lemma NoRowsCounted()
    ensures CountsRows(CountsOf([]), [])
  {
  }

  /**
   * A built proposal stands row by row for its queue with the chosen texts and decisions, is self-hashed and bound to the queue,
   * counts its rows, and offers their transition groups.
   */
  lemma BuildPromises(queue: ReviewQueue, evidence: Evidence, raw: seq<(string, RawRecommendation)>)
    requires TrimmedAuthority(evidence.authority) && BuiltProposal(queue, evidence, raw).Ok?
    ensures var p := BuiltProposal(queue, evidence, raw).value;
      && BuiltFor(queue, p) && p.body.groups == TransitionGroups.MergeGroups(p.body.rows)
      && RowsChosen(queue.objects, evidence, raw, p.body.rows) && CountsRows(p.body.counts, p.body.rows)
  {
    hide Drafts, Normalized, CountsOf, Pairs, TrimmedAuthority, ObjectIds, TransitionGroups.MergeGroups, RowsChosen, CountsRows;
    NormalizedAreSound(raw);
    DraftsPair(queue.objects, evidence, Normalized(raw).value);
    WhenRowsAreDrafted(queue.objects, evidence, raw);
    CountsAreTotals(Drafts(queue.objects, evidence, Normalized(raw).value).value);
  }

  /**
   * The build succeeds exactly when every recommendation has an id and is acceptable, its trimmed id is stored in the queue, and
   * every object has an id and no recommended APPROVE that would change its candidate.
   */
  lemma WhenProposalIsBuilt(queue: ReviewQueue, evidence: Evidence, raw: seq<(string, RawRecommendation)>)
    requires TrimmedAuthority(evidence.authority)
    ensures BuiltProposal(queue, evidence, raw).Ok? <==>
      && (forall i :: 0 <= i < |raw| ==> Strip(raw[i].0) != "" && Acceptable(raw[i].1) && Strip(raw[i].0) in ObjectIds(queue.objects))
      && (forall i :: 0 <= i < |queue.objects| ==>
            Drafted(queue.objects[i], MatchedTexts(evidence, queue.objects[i].geometryRefs), RawFor(raw, Strip(queue.objects[i].contentId))))
  {
    hide Drafts, Normalized, CountsOf, TrimmedAuthority, ObjectIds, TransitionGroups.MergeGroups, Drafted, Acceptable, Strip, RawFor,
         MatchedTexts, RowsChosen;
    WhenNormalized(raw);
    if Normalized(raw).Ok? {
      WhenRowsAreDrafted(queue.objects, evidence, raw);
    }
  }

  // ----- Build and validate -----

  lemma DraftHasNoFault(o: QueueObject, row: ProposalRow)
    requires DraftOf(o, row)
    ensures RowFault(row).None?
  {
  }

  lemma {:induction false} DraftsHaveNoFault(objects: seq<QueueObject>, rows: seq<ProposalRow>)
    requires Pairs(objects, rows)
    ensures FirstFault(rows).None?
  {
    hide DraftOf, RowFault;
    if rows != [] {
      DraftsHaveNoFault(objects[..|objects| - 1], rows[..|rows| - 1]);
      DraftHasNoFault(objects[|objects| - 1], rows[|rows| - 1]);
    }
  }

  /** The queue's ids pairwise differ and are stored trimmed. */
  ghost predicate CleanIds(queue: ReviewQueue) {
    Distinct(ObjectIds(queue.objects)) && forall i :: 0 <= i < |queue.objects| ==> Stripped(queue.objects[i].contentId)
  }

  lemma IdsOfPairs(objects: seq<QueueObject>, rows: seq<ProposalRow>)
    requires Pairs(objects, rows)
    ensures |RowIds(rows)| == |ObjectIds(objects)| == |objects|
    ensures forall i :: 0 <= i < |objects| ==> ObjectIds(objects)[i] == objects[i].contentId && RowIds(rows)[i] == Strip(objects[i].contentId)
  {
  }

  predicate AllTrimmed(ids: seq<string>) { forall i :: 0 <= i < |ids| ==> Stripped(ids[i]) }

  /** Every id is the trimmed form of its raw id. */
  predicate TrimmedForms(ids: seq<string>, raw: seq<string>) {
    && |ids| == |raw| && AllTrimmed(ids)
    && forall i :: 0 <= i < |raw| && Stripped(raw[i]) ==> ids[i] == raw[i]
  }

  lemma CoveringForcesTrimmed(ids: seq<string>, raw: seq<string>)
    requires TrimmedForms(ids, raw) && Elements(ids) == Elements(raw)
    ensures AllTrimmed(raw)
  {
    hide Stripped;
    forall i | 0 <= i < |raw|
      ensures Stripped(raw[i])
    {
      assert raw[i] in Elements(raw);
      var k :| 0 <= k < |ids| && ids[k] == raw[i];
    }
  }

  lemma TrimmedFormsOfTrimmed(ids: seq<string>, raw: seq<string>)
    requires TrimmedForms(ids, raw) && AllTrimmed(raw)
    ensures ids == raw
  {
  }

  lemma RowIdsAreTrimmedForms(objects: seq<QueueObject>, rows: seq<ProposalRow>)
    requires Pairs(objects, rows)
    ensures TrimmedForms(RowIds(rows), ObjectIds(objects))
  {
    IdsOfPairs(objects, rows);
    hide Strip, Stripped, Pairs, RowIds, ObjectIds;
    forall i | 0 <= i < |objects|
      ensures Stripped(RowIds(rows)[i]) && (Stripped(ObjectIds(objects)[i]) ==> RowIds(rows)[i] == ObjectIds(objects)[i])
    {
      StripIsIdempotent(ObjectIds(objects)[i]);
    }
  }

  lemma WhenIdsAreClean(queue: ReviewQueue)
    ensures CleanIds(queue) <==> Distinct(ObjectIds(queue.objects)) && AllTrimmed(ObjectIds(queue.objects))
  {
  }

  /** Row ids cover the queue exactly once just when the queue's ids are distinct and trimmed. */
  lemma WhenIdsCover(queue: ReviewQueue, rows: seq<ProposalRow>)
    requires Pairs(queue.objects, rows)
    ensures Distinct(RowIds(rows)) && Elements(RowIds(rows)) == Elements(ObjectIds(queue.objects)) <==> CleanIds(queue)
  {
    hide *;
    var raw, ids := ObjectIds(queue.objects), RowIds(rows);
    RowIdsAreTrimmedForms(queue.objects, rows);
    WhenIdsAreClean(queue);
    if Elements(ids) == Elements(raw) {
      CoveringForcesTrimmed(ids, raw);
    }
    if AllTrimmed(raw) {
      TrimmedFormsOfTrimmed(ids, raw);
    }
  }

  /** A built proposal validates exactly when the ids of its queue are distinct and trimmed. */
  lemma WhenBuiltProposalValidates(queue: ReviewQueue, p: Proposal)
    requires BuiltFor(queue, p)
    ensures ProposalFault(queue, p).None? <==> CleanIds(queue)
  {
    hide Pairs, CleanIds, Keys, RowIds, ObjectIds, CountsOf, FirstFault;
    WhenIdsCover(queue, p.body.rows);
    FullKeysAreDistinct(RowIds(p.body.rows));
    DraftsHaveNoFault(queue.objects, p.body.rows);
  }

  // ----- Counts -----

  function Undecided(rows: seq<ProposalRow>): nat {
    if rows == [] then 0 else Undecided(rows[..|rows| - 1]) + (if rows[|rows| - 1].decision in {APPROVE, EDIT, REJECT_UI} then 0 else 1)
  }

  /** Every row is carried forward or left to the operator, and is decided one way or not at all. */
  lemma {:induction false} CountsBalance(rows: seq<ProposalRow>)
    ensures var c := CountsOf(rows);
      && c.objects == |rows| && c.carry + c.manual == |rows| && c.inputRequired <= c.manual
      && c.approve + c.edit + c.reject + Undecided(rows) == |rows|
  {
    if rows != [] {
      CountsBalance(rows[..|rows| - 1]);
    }
  }

  // ----- Materialize -----

  predicate Resolved(row: ProposalRow) { row.decision == REJECT_UI || (row.decision != "" && row.suggested != "") }

  predicate AllResolved(rows: seq<ProposalRow>) { forall i :: 0 <= i < |rows| ==> Resolved(rows[i]) }

  lemma DraftIsMaterializable(o: QueueObject, row: ProposalRow)
    requires DraftOf(o, row)
    ensures Materializable(row) <==> Resolved(row)
    ensures DecisionOf(row) == Decision(row.contentId, row.decision, row.suggested)
  {
    StripIsIdempotent(o.contentId);
    hide Upper, Strip;
  }

  function DecisionsOf(rows: seq<ProposalRow>): seq<Decision> {
    if rows == [] then []
    else
      var last := rows[|rows| - 1];
      DecisionsOf(rows[..|rows| - 1]) + [Decision(last.contentId, last.decision, last.suggested)]
  }

  lemma {:induction false} DraftsMaterialize(objects: seq<QueueObject>, rows: seq<ProposalRow>)
    requires Pairs(objects, rows)
    ensures Decisions(rows).Ok? <==> AllResolved(rows)
    ensures Decisions(rows).Ok? ==> Decisions(rows).value == DecisionsOf(rows)
  {
    hide DraftOf, Materializable, DecisionOf, Resolved, Strip;
    if rows != [] {
      var front, last := rows[..|rows| - 1], rows[|rows| - 1];
      DraftsMaterialize(objects[..|objects| - 1], front);
      DraftIsMaterializable(objects[|objects| - 1], last);
      assert AllResolved(rows) <==> AllResolved(front) && Resolved(last) by {
        assert forall i :: 0 <= i < |front| ==> rows[i] == front[i];
      }
    }
  }

  /**
   * Materializing a built proposal under its own hash succeeds exactly when the queue's ids are clean, the reviewer is
   * named, and every row is REJECT_UI or has a decision with text. The decisions are then the rows', in order.
   */
  lemma WhenBuiltProposalMaterializes(queue: ReviewQueue, p: Proposal, approvedSha: Hash, reviewer: string, reviewedAt: string)
    requires BuiltFor(queue, p)
    ensures var r := Materialized(queue, p, approvedSha, reviewer, reviewedAt);
      && (r.Ok? <==>
            && CleanIds(queue) && approvedSha == p.selfSha && Strip(reviewer) != "" && Strip(reviewedAt) != ""
            && AllResolved(p.body.rows))
      && (r.Ok? ==>
            && r.value.selfSha == OfDecisions(r.value.body) && r.value.body.queueSha == OfQueueFile(queue)
            && r.value.body.reviewer == Strip(reviewer) && r.value.body.reviewedAt == Strip(reviewedAt)
            && r.value.body.decisions == DecisionsOf(p.body.rows))
  {
    hide Pairs, CleanIds, ProposalFault, AllResolved, Decisions, DecisionsOf, CountsOf, Strip;
    WhenBuiltProposalValidates(queue, p);
    DraftsMaterialize(queue.objects, p.body.rows);
  }

  /** In terms of the inputs: a drafted row is resolved exactly when it is rejected, or some text is at hand and no input is demanded. */
  lemma WhenRowIsResolved(o: QueueObject, evidence: Evidence, recommendations: Recommendations)
    requires TrimmedAuthority(evidence.authority) && SoundRecommendations(recommendations)
    requires DraftRow(o, evidence, recommendations).Ok?
    ensures var id := Strip(o.contentId);
      var decision := if id in recommendations then recommendations[id].decision else "";
      var text := if id in recommendations then recommendations[id].text else "";
      Resolved(DraftRow(o, evidence, recommendations).value) <==>
      (decision == REJECT_UI || (decision != INPUT_REQUIRED
         && (text != "" || InheritedText(evidence, o.geometryRefs) != "" || Strip(o.candidate) != "")))
  {
    hide Strip, Upper, InheritedText, TrimmedAuthority;
  }

  /** A row is carried forward only with a text every one of its reviewed crops agrees on. */
  lemma CarriedTextIsReviewed(o: QueueObject, evidence: Evidence, recommendations: Recommendations)
    requires DraftRow(o, evidence, recommendations).Ok? && DraftRow(o, evidence, recommendations).value.status == CARRY_FORWARD
    ensures var row := DraftRow(o, evidence, recommendations).value;
      var texts := MatchedTexts(evidence, o.geometryRefs);
      && Strip(o.contentId) !in recommendations && row.suggested != ""
      && texts != [] && forall i :: 0 <= i < |texts| ==> texts[i] == row.suggested
  {
    assert Strip("") == "";
    hide Strip, Upper, MatchedTexts;
  }
}
