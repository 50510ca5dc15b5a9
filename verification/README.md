# Review and repair pipeline: verified model

This project models the offline review and repair pipeline of the repository in Dafny and proves its main guarantees. The
pipeline takes residual Chinese text found in rendered video, proposes a frame window and geometry for each occurrence, asks
an operator to approve hash-bound proposals, and records what was approved.

The model follows the program's own parts:

- **Residual window and geometry.** `Geometry`, `Median`, `FrameScan`, `SourceScan`, `ResidualEvidence`, `WindowDecision`,
  `Clustering`, `Normalization`, `SourceMatching`, `Occurrences`, `ReviewedResiduals`, `LongSubtitle`. The boxes the recognizer
  reports for a frame are arbitrary; text signatures and similarities are arbitrary functions; coordinates are reals. The
  scanner with its memo cache is a class whose methods update the cache as the program does. `ScanRules`,
  `TrackRules`, `EvidenceRules` and `WindowRules` say in numbers of frames, hits and areas exactly what is decided when.
- **Cumulative remediation.** `Remediation`, `Activation`, `CrashRecovery`, `Generations`. Documents live in a file map, a
  digest is a datatype constructor over what it digests (hence injective), and the first twelve digits of a digest are an
  arbitrary function (hence they may collide). Runs mix activations, crashes after any write, and rewrites of the legacy file.
- **Batch approval and rollback.** `Rollback` holds a directory in which any read or write may fail; `Phase2Batch` and
  `Phase3Batch` apply the real per-case steps in it.
- **Build, validate, materialize.** `ReviewedAuthority`, `Phase2Rows`, `TransitionGroups`, `Phase2Review`, `Phase2Chain`,
  `OperatorReview` for Phase 2; `Keyed`, `Phase3Review`, `Phase3Batch`, `Phase3EndToEnd` for Phase 3. `Phase2Admission` and
  `Phase3Admission` say exactly which documents each step accepts, whoever made them.
- **Phase 4 evidence.** `DenseEpoch`, `IntersectionIndex`, `FalsePositiveBundle`.
- `Prelude`, `Text` and `Sorting` hold the shared list, string and sorting facts.

`dafny verify dfyconfig.toml` checks the whole project.

## What the proofs bring to light

- The "ambiguous window" error of the run inference cannot occur, and for a run found by that inference both boundary flags are
  always set, so only hit density can send a window to the flash fallback.
- The settled window always holds its frame, whatever the Phase-1 timeline and the recognizer say. The binding and the encoded
  track do read a stored end frame of 0 differently, but the normalization never stores a range on which that matters
  (`WhenBoundTrackReaches`, `ReviewedTrackReaches`).
- The emitted occurrence need not hold it. Over a rendered subtitle of another text, encoded output moves the start to that
  subtitle's end and keeps its own end. The occurrence misses its frame exactly when the subtitle ends after the frame, and
  starts after its own end exactly when the subtitle ends after the window; neither the validation nor the materialization of
  the proposal looks at its range (`WhenOccurrenceHolds`, `CutCanInvert`). The code is followed.
- The first remediation generation is not checked for distinct ids; if they are not distinct, nothing can follow it
  (`UncheckedFirstGenerationIsFinal`).
- The Phase 2 rollback is complete exactly for pairwise distinct cases, up to decisions already on disk (`WhenPhase2RollsBack`).
- A Phase 2 proposal over ids stored with surrounding blanks never validates; an APPROVE of an empty candidate validates but
  does not materialize; an empty queue passes three stages and fails the fourth.
- The Phase 2 validation compares an approved text with the candidate copied into the proposal, the recording with that of the
  queue, so a proposal with a candidate of its own is refused only at the end (`ForeignCandidateIsRefusedLate`).
- A Phase 2 decision about an object that a non-empty timeline does not list is dropped without an error, although the recording
  step demands a complete decision set; only the audit counts show it (`WhenBatchIsRecordedInFull`, `CountsShowDrops`). The
  code is followed.
- A Phase 3 proposal is built from a trimmed review hash but applied against the stored one, and a release label with lower-case
  letters yields a token that is never accepted (`PrintedToken`). Phase 2 upper-cases the label, so its token always is
  (`ExpectedTokenIsAccepted`).
- The test for a confirmed detection before an encoded track is looked for never decides anything: a track is accepted only with
  confirmed detections (`WhenTrackIsUsed`).
- Transition grouping depends on row order: a row that bridges two earlier groups leaves them separate.
- A dense panel track with end frame 0 is read as ending at -1, so it is chosen only if it starts before frame 0
  (`WhenZeroEndIsChosen`).
- The docstring of the Phase-1 intersection index speaks of active boxes; the code also lists inactive ones and marks them. The
  code is followed.
- A false-positive decision without a cluster id is stored, but the file then no longer loads and stays as it is
  (`NamelessDecisionIsFinal`); a version 1 approval, which is written without an id, is renamed and kept.

## Model

| member | source | states |
|---|---|---|
| Geometry.OverlapBasics | apps/api/scripts/build_phase2_residual_remediation_proposal.py:174-187 | overlap (intersection over the smaller area) is symmetric and lies between 0 and 1 for all rectangles |
| Geometry.FullOverlapIsContainment | apps/api/scripts/build_phase2_residual_remediation_proposal.py:174-187 | for rectangles with area, overlap is 1 exactly when one lies inside the other |
| Geometry.CropNeverEmpty | apps/api/scripts/build_phase2_residual_remediation_proposal.py:751-762 | for every valid anchor and frame size the padded crop is non-empty and inside the frame, so the empty-crop return is unreachable |
| Geometry.OverlapUnderAffine | apps/api/scripts/build_phase2_residual_remediation_proposal.py:174-187 | moving and stretching each axis by a positive factor leaves the overlap of any two rectangles unchanged |
| Geometry.ProjectionKeepsOverlap | apps/api/scripts/build_phase2_residual_remediation_proposal.py:770-791 | the overlap of two boxes is the same in crop coordinates and after projection to the frame, so the geometric test gives one verdict |
| Geometry.ProjectionStaysValid | apps/api/scripts/build_phase2_residual_remediation_proposal.py:770-791 | a box valid in the crop projects to a valid box; one inside the unit crop lands inside the crop rectangle |
| Median.OppositeRanks | apps/api/scripts/build_phase2_residual_remediation_proposal.py:1231-1236 | k-th smallest of one list plus k-th largest of another never exceeds a bound the lists keep pointwise (counting argument) |
| Median.MedianOfSum | apps/api/scripts/build_phase2_residual_remediation_proposal.py:1231-1236 | medians of two lists keep every bound their elements keep pairwise, for odd and even lengths |
| Median.MedianSplits | apps/api/scripts/build_phase2_residual_remediation_proposal.py:1231-1236 | at least half of the values reach the median, and at most half lie above any larger value |
| Median.MedianBoxIsValid | apps/api/scripts/build_phase2_residual_remediation_proposal.py:2293-2297 | the component-wise median of any non-empty list of valid boxes is valid, so reading it back never raises |
| FrameScan.ScanPlanIsSound | apps/api/scripts/build_phase2_residual_remediation_proposal.py:1273-1323 | the scan plan is strictly increasing, inside the scanned range and the video, holds every clamped required frame, residual frame and endpoint, has no gap above the step, and stays within the sample budget |
| FrameScan.WhenPlanIsNonempty | apps/api/scripts/build_phase2_residual_remediation_proposal.py:1287-1301 | the scanned range is non-empty exactly when there is a residual frame or the padded window meets the video |
| ScanRules.WhichFramesAreScanned | apps/api/scripts/build_phase2_residual_remediation_proposal.py:1273-1323 | a plan has exactly every step-th frame of its range and those asked for (required ones, residual ones and the ends of the window, cut to the range), the step being the least that keeps within the budget |
| ScanRules.OneStep | apps/api/scripts/build_phase2_residual_remediation_proposal.py:1311-1313 | there is only one such step |
| ScanRules.RangeIs | apps/api/scripts/build_phase2_residual_remediation_proposal.py:1287-1301 | the scanned range goes from the first to the last of the window and the residual frames, with the margin, cut to the video |
| FrameScan.InferContiguousHitWindow | apps/api/scripts/build_phase2_residual_remediation_proposal.py:1243-1270 | succeeds exactly when the anchor is a hit, and then returns the isolated gap-run around it; the ambiguity error never occurs |
| FrameScan.RunAroundAnchorIsUnique | apps/api/scripts/build_phase2_residual_remediation_proposal.py:1243-1270 | two isolated runs of the same hits around one anchor are equal, so the inferred run is determined |
| FrameScan.NoMissNoSplit | apps/api/scripts/build_phase2_residual_remediation_proposal.py:2131-2146 | two hits with no sampled miss between them always belong to the same inferred run, for the gap computed from the widest sample step |
| FrameScan.RunDensity | apps/api/scripts/build_phase2_residual_remediation_proposal.py:1243-1270 | a run with at most g misses between neighbours spans at most (hits - 1)(g + 1) + 1 frames |
| FrameScan.FullScanRunIsDense | apps/api/scripts/build_phase2_residual_remediation_proposal.py:1243-1270 | with gap 1 more than half of the frames of a run are hits |
| SourceScan.SourceScanner.constructor | apps/api/scripts/build_phase2_residual_remediation_proposal.py:1980-1981 | a new scanner has an empty match cache and no decoded frames |
| SourceScan.SourceScanner.ScanSourceFrames | apps/api/scripts/build_phase2_residual_remediation_proposal.py:1983-2009 | exactly the requested in-video frames not yet cached are decoded and answered; every earlier answer stays |
| SourceScan.SourceScanner.SourceHit | apps/api/scripts/build_phase2_residual_remediation_proposal.py:2011-2013 | the answer for a frame is its cached or freshly probed match, and the cache grows by that frame at most |
| SourceScan.SourceScanner.Seed | apps/api/scripts/build_phase2_residual_remediation_proposal.py:2072-2080 | recovered preflight matches replace what the probe had said for their frames, and nothing else |
| SourceScan.SourceScanner.RefineHitBoundaries | apps/api/scripts/build_phase2_residual_remediation_proposal.py:1326-1366 | returns the maximal extension of the window by consecutive hits, probes exactly the added frames and at most one miss per side, and sets each confirmation flag exactly when that side starts inside the video |
| SourceScan.ExtensionIsUnique | apps/api/scripts/build_phase2_residual_remediation_proposal.py:1326-1366 | the maximal extension of a window by consecutive hits is unique |
| SourceScan.ExtensionIsIdempotent | apps/api/scripts/build_phase2_residual_remediation_proposal.py:1326-1366 | refining a refined window changes nothing |
| SourceMatching.MatchSourceClusterCrop | apps/api/scripts/build_phase2_residual_remediation_proposal.py:736-791 | the crop, its projection and the two passes over its boxes compute the declared match of one frame |
| SourceMatching.MatchSourceBox | apps/api/scripts/build_phase2_residual_remediation_proposal.py:646-733 | the two loops return the first best exact box, else the first best similar one |
| EvidenceRules.WhenBoxIsExact | apps/api/scripts/build_phase2_residual_remediation_proposal.py:646-677 | a box is exact when it has the signature looked for, an ideograph, half of the smaller area with the place and a quarter of certainty |
| EvidenceRules.WhenBoxIsSimilar | apps/api/scripts/build_phase2_residual_remediation_proposal.py:679-733 | a box is similar when there is a text read before the correction, it is alike to that by 0.75, over the place by half and half certain |
| EvidenceRules.WhatIsLookedFor | apps/api/scripts/build_phase2_residual_remediation_proposal.py:604-643 | without a correction the cluster is looked for; with one its text, and what was read before; a correction without ideographs is an error |
| SourceMatching.WhenFrameMatches | apps/api/scripts/build_phase2_residual_remediation_proposal.py:646-791 | around a usable anchor a frame matches exactly when some box of its crop is exact or similar, and then in the best exact one, or without an exact one the best similar one |
| SourceMatching.MatchIsSound | apps/api/scripts/build_phase2_residual_remediation_proposal.py:646-791 | whatever the recognizer reports, a match carries its frame, a valid box and at least half of the smaller area with the residual |
| SourceMatching.CropBoxIsJudgedByOverlap | apps/api/scripts/build_phase2_residual_remediation_proposal.py:661-666 | a box valid in the crop is never discarded for its geometry, only for its overlap |
| SourceMatching.CropReadsTheSameOverlap | apps/api/scripts/build_phase2_residual_remediation_proposal.py:661-791 | for a residual whose place is seen in the crop the overlap test can be read in crop coordinates |
| ResidualEvidence.EncodedTemporalGeometryAuthority | apps/api/scripts/build_phase2_residual_remediation_proposal.py:486-601 | the loop form computes the declared authority: none without two evidence frames, all-stable geometry and a dense or short track |
| ResidualEvidence.AuthorityShape | apps/api/scripts/build_phase2_residual_remediation_proposal.py:486-601 | an accepted authority has at least two ascending in-video hit frames including the in-video representative, and valid median geometry |
| TrackRules.WhenTrackIsAccepted | apps/api/scripts/build_phase2_residual_remediation_proposal.py:486-601 | a cluster has an encoded track exactly when its reviewed place is usable, two frames show it, every detection shares three quarters of the smaller area with the place at no more than twice the size, and the frames are dense (three or more, nine twentieths of their span, never seven missing in a row, four fifths of the detections confirmed) or a confirmed flash of at most twelve; the range is then given |
| TrackRules.WhenTrackIsUsed | apps/api/scripts/build_phase2_residual_remediation_proposal.py:1964-2016 | the extra test for a confirmed detection changes nothing: encoded output uses every acceptable track, other output none |
| ResidualEvidence.PreflightSourceBoundTemporalMatches | apps/api/scripts/build_phase2_residual_remediation_proposal.py:243-359 | returns two matches exactly when the earlier evidence binds, the first being the first best-scoring qualifying source row |
| TrackRules.WhenPreflightBinds | apps/api/scripts/build_phase2_residual_remediation_proposal.py:243-359 | earlier evidence of a run binds exactly when it is current, complete and without error, some source row of the frame vouches for the most confident detection (a quarter certain, half alike, half of the smaller area shared, neither box four times the other), and a neighbouring frame of the video confirms it near the same place; the best row is the first of the largest sum |
| ResidualEvidence.DominantWindowIsSupported | apps/api/scripts/build_phase2_residual_remediation_proposal.py:1200-1220 | a chosen Phase-1 window contains the frame and is shared by at least half of the active rows; a strict majority window is always the one chosen |
| WindowDecision.ProposeWindow | apps/api/scripts/build_phase2_residual_remediation_proposal.py:1937-2271 | the method computes the window decision branch by branch (the outcomes are given exactly by `WhenSourceDecides` and `WhenTrackDecides`), and for every success with the representative in the video the window satisfies 0 <= start <= r <= end < frame count exactly when an encoded track, if used, reaches r; the median geometry is valid |
| WindowDecision.ProposeOccurrence | apps/api/scripts/build_phase2_residual_remediation_proposal.py:1937-2297 | the window decision followed by the text decision: a settled window fails only for an ambiguous source text |
| WindowDecision.AgreedTextIs | apps/api/scripts/build_phase2_residual_remediation_proposal.py:2286-2292 | without a correction the text is settled exactly when some text has four fifths of the matches, and it is that text |
| WindowDecision.TrackTextIsAgreed | apps/api/scripts/build_phase2_residual_remediation_proposal.py:2105-2125 | the matches of an encoded track show one text, so such a window is never ambiguous |
| WindowDecision.InferWindow | apps/api/scripts/build_phase2_residual_remediation_proposal.py:2131-2231 | the outcome is the settled maximal extension of the one hit run around the anchor, or the confirmation error exactly when the anchor is no hit |
| WindowDecision.SettleInferred | apps/api/scripts/build_phase2_residual_remediation_proposal.py:2163-2219 | only density can send an inferred window to the flash fallback; a settled one holds the anchor, ends on hits and stops at misses |
| WindowDecision.DecideBySource | apps/api/scripts/build_phase2_residual_remediation_proposal.py:2049-2271 | the method gathers the source evidence and takes the branch that `WhenSourceDecides` gives exactly; every success holds the representative frame |
| WindowDecision.KeptWindowHolds | apps/api/scripts/build_phase2_residual_remediation_proposal.py:2232-2271 | matches that start and end where the window does settle a window in the video around the anchor |
| WindowDecision.TrackDecision | apps/api/scripts/build_phase2_residual_remediation_proposal.py:2017-2048 | an encoded track always settles, and its window holds the representative exactly when the track reaches within one frame of it |
| WindowRules.ScannedEvidenceIs | apps/api/scripts/build_phase2_residual_remediation_proposal.py:2049-2130 | what is scanned: the plan with a margin of 30 frames and 120 samples, in the video and with the representative in it; hits exactly on those where the residual is seen, and preflight rows exactly when unencoded output misses the representative and some were recovered |
| WindowRules.WhereItStarts | apps/api/scripts/build_phase2_residual_remediation_proposal.py:1200-1220 | the decision starts from the first most frequent window when at least half of the active rows have it; from a broad one of 30 frames before and 120 after when no row is active, or with a preflight fallback; else with an error |
| WindowRules.WhenWindowIsKept | apps/api/scripts/build_phase2_residual_remediation_proposal.py:2232-2271 | with hits that begin and end with the window: it is kept exactly when five times the hits reach four times the scanned frames in it (at least 1); else exactly which of the two errors or the flash, padded by two frames for one hit and by one otherwise |
| WindowRules.WhenWindowIsInferred | apps/api/scripts/build_phase2_residual_remediation_proposal.py:2131-2231 | a disputed window is an error without a hit on the representative; else the one hit run around it, with the gap of the widest sample step, is grown and settled by the same density, hit and span numbers |
| WindowRules.WhenSourceDecides | apps/api/scripts/build_phase2_residual_remediation_proposal.py:1937-2271 | the whole decision without a track, from the timeline and what the recognizer sees: exactly when it is kept, inferred, a flash or each of the errors |
| WindowRules.WhenTrackDecides | apps/api/scripts/build_phase2_residual_remediation_proposal.py:2017-2048 | a track that begins and ends with its frames settles just its own range, any other one frame more on each side |
| WindowRules.WindowsAre | apps/api/scripts/build_phase2_residual_remediation_proposal.py:1200-1208 | the windows counted are, in order, those of just the rows that cover the frame: a missing end covers none, an end of zero is zero |
| Clustering.ClusterResidualDetections | apps/api/scripts/build_phase2_residual_remediation_proposal.py:362-401 | the greedy loop with its closing sort returns exactly the greedy groups: the closing sort changes nothing |
| Clustering.GroupsAreSound | apps/api/scripts/build_phase2_residual_remediation_proposal.py:362-401 | members overlap their anchor by 0.60 or more, no member of a later group fits an earlier one, each group is in frame order, the groups conserve the kept detections, and the grouping fails exactly on an unusable rectangle |
| Clustering.AnchorsApart | apps/api/scripts/build_phase2_residual_remediation_proposal.py:374-384 | anchors of equal signature overlap by less than 0.60 |
| EvidenceRules.WhenRowIsReviewable | apps/api/scripts/build_phase2_residual_remediation_proposal.py:362-372 | a row reaches the greedy grouping exactly when the signature of its trimmed text is not empty and holds an ideograph |
| Clustering.ClusteringConserves | apps/api/scripts/build_phase2_residual_remediation_proposal.py:362-401 | from any detections the groups hold exactly the reviewable ones, as a multiset |
| Normalization.NormalizeResidualDetections | apps/api/src/services/residual_translation.py:212-379 | the loops group the rows in frame order into temporals and return the declared review objects |
| Normalization.TemporalsAreSound | apps/api/src/services/residual_translation.py:258-288 | the temporals partition the usable rows; each is in frame order with pauses no longer than allowed, every row after the first lies by 0.55 on the median box of those before it and reads like them, and the stored range is that of its rows |
| Normalization.WhereRowGoes | apps/api/src/services/residual_translation.py:258-288 | a row joins, at its end, the latest of the last twelve temporals that it may join, and opens a new one exactly when there is none |
| EvidenceRules.WhenRowsReadAlike | apps/api/src/services/residual_translation.py:64-101 | two rows read alike exactly when neither signature is empty and they are equal, alike by 0.72, or by 0.62 when of four characters or more one occurs in the other |
| Normalization.NormalizedArePresented | apps/api/src/services/residual_translation.py:289-379 | with some geometry, the objects shown are, in order, just the temporals that have two rows, a confirmation or confidence 0.5, and lie on no protected track at its time; each shows the agreed text, the median box, the frames of its rows and the first most confident row of that text |
| Normalization.NormalizedAreSpanned | apps/api/src/services/residual_translation.py:227-379 | every object shown stores start <= shown frame <= end, or has no geometry the remediation can use |
| ReviewedResiduals.ClusterReviewableResidualDetections | apps/api/scripts/build_phase2_residual_remediation_proposal.py:404-483 | the nested loops compute the declared binding of raw rows to reviewed objects |
| ReviewedResiduals.BindingIs | apps/api/scripts/build_phase2_residual_remediation_proposal.py:417-483 | the binding returns the cluster of every bindable object, in order, and fails exactly when some bindable object has no evidence, naming the first |
| ReviewedResiduals.ClusterHolds | apps/api/scripts/build_phase2_residual_remediation_proposal.py:436-473 | a cluster holds exactly the rows that are evidence for its object, trimmed and in frame order |
| ReviewedResiduals.ClusterInRange | apps/api/scripts/build_phase2_residual_remediation_proposal.py:430-466 | every detection bound to an object lies in its reviewed frame range |
| EvidenceRules.WhenRowIsEvidence | apps/api/scripts/build_phase2_residual_remediation_proposal.py:404-466 | a raw row is evidence for a reviewed object exactly when it is in its range, read from the stored or shown frames, over its place by 0.55, and alike in text |
| EvidenceRules.WhenObjectIsBound | apps/api/scripts/build_phase2_residual_remediation_proposal.py:417-429 | an object is bound exactly when it has an id, a readable text with an ideograph and a usable place |
| ReviewedResiduals.WhenBoundTrackReaches | apps/api/scripts/build_phase2_residual_remediation_proposal.py:404-601 | the binding alone, for any object: the encoded track reaches the representative frame unless it is dense, stores end frame 0, and the frame is past 1 |
| ReviewedResiduals.ReviewedTrackReaches | apps/api/scripts/build_phase2_residual_remediation_proposal.py:1563-1576 | for the objects the normalization makes of the same rows every encoded track reaches the representative frame, without exception |
| ReviewedResiduals.ProposeReviewedOccurrences | apps/api/scripts/build_phase2_residual_remediation_proposal.py:1551-2600 | from raw rows to emitted occurrences: one per bound cluster, each emitted for a settled window around its own representative frame; it fails only for the video metadata, in the binding, without a cluster, or at the first occurrence that cannot be emitted |
| ReviewedResiduals.WhenOccurrenceHolds | apps/api/scripts/build_phase2_residual_remediation_proposal.py:2484-2600 | a proposed occurrence lies in the video exactly when the subtitle cut to ends by the end of its window, and holds its representative frame exactly when that subtitle ends by the frame |
| ReviewedResiduals.OccurrenceHolds | apps/api/scripts/build_phase2_residual_remediation_proposal.py:2341-2600 | every proposed occurrence holds its frame in output that is not encoded, and where no rendered subtitle ends after the frame |
| ReviewedResiduals.ZeroEndMissesTheAnchor | apps/api/scripts/build_phase2_residual_remediation_proposal.py:429-435 | remark on the binding alone: an object from 5 to 0, which the normalization never stores, is bound to a dense track that misses its representative frame 5 |
| Occurrences.EmitOccurrence | apps/api/scripts/build_phase2_residual_remediation_proposal.py:2298-2600 | the loop over the Phase-1 rows and the branches after it emit the declared occurrence or the first error |
| Occurrences.WhenRowOverlaps | apps/api/scripts/build_phase2_residual_remediation_proposal.py:2301-2330 | a row is over the residual exactly when their frames meet, an end of zero or none being the start, and in pixels they share 0.70 of the smaller area |
| Occurrences.TargetIs | apps/api/scripts/build_phase2_residual_remediation_proposal.py:2301-2383 | an occurrence is cut exactly when encoded output has a rendered row of another text over it; the target is the row the least of their ids stands for, and with one row per id it is such a row itself |
| Occurrences.WhenOccurrenceIsEmitted | apps/api/scripts/build_phase2_residual_remediation_proposal.py:2301-2541 | an occurrence is emitted exactly when no rendered row of another text is over it, or the output is encoded and the target has a sole translation and four coordinates, and when it has a sole translation or a suggestion |
| Occurrences.EmittedText | apps/api/scripts/build_phase2_residual_remediation_proposal.py:2384-2541 | which text is emitted: the sole translation carried over if there is one, the trimmed suggestion otherwise, and which rows are listed as same and as not rendered |
| Occurrences.WhenEmittedHolds | apps/api/scripts/build_phase2_residual_remediation_proposal.py:2484-2600 | for every settled window: the occurrence lies in the video exactly when the target ends by the end of the window, holds the frame exactly when the target ends by the frame, and with one row per text id begins where the target ends; output that is not encoded is never cut |
| LongSubtitle.CutCanInvert | apps/api/scripts/build_phase2_residual_remediation_proposal.py:2484-2600 | the failing case, from one raw row: the window is settled from 2 to 7, the subtitle over it lasts until 50, and the occurrence is emitted from 50 to 7 |
| Remediation.IdCountDecidesDistinctness | apps/api/scripts/materialize_phase2_residual_remediation.py:436-459 | the set-size test accepts a merged list exactly when every row has an id and no two ids are equal |
| Remediation.RowsOfMerge | apps/api/scripts/materialize_phase2_residual_remediation.py:431-475 | a merged list holds objects only, so merging again keeps all of it |
| Remediation.PointerRoundTrip | apps/api/src/services/residual_remediation_authority.py:34-99 | a pointer built for a verified generation resolves to that generation |
| Activation.ArtifactRoot.constructor | apps/api/scripts/materialize_phase2_residual_remediation.py:483-490 | an artifact root starts with the given files and an empty write log |
| Activation.ArtifactRoot.SnapshotParent | apps/api/scripts/materialize_phase2_residual_remediation.py:343-363 | the mutable legacy parent is copied under its own digest or kept when already copied; any other parent stays |
| Activation.ArtifactRoot.MergeGeneration | apps/api/scripts/materialize_phase2_residual_remediation.py:366-480 | the method performs the declared writes of a merge in order, including what it leaves behind on a refusal; when it succeeds, and with what, is `WhenDeltaIsMerged` |
| Activation.ArtifactRoot.ActivateCumulative | apps/api/scripts/materialize_phase2_residual_remediation.py:483-558 | the method performs the declared writes in order and ends with the declared result and files; when it succeeds or refuses is `WhenDeltaIsMerged` and `WhenActivationIsRefused` |
| Activation.ActivationWritesOnce | apps/api/scripts/materialize_phase2_residual_remediation.py:483-558 | every write but a closing pointer write creates a new delta or generation file, whatever the inputs |
| CrashRecovery.CrashKeepsOldGeneration | apps/api/scripts/materialize_phase2_residual_remediation.py:483-558 | after any proper prefix of the writes, or any failure, the generation that was active is still active with the same content |
| CrashRecovery.ActivationRecovers | apps/api/scripts/materialize_phase2_residual_remediation.py:483-558 | repeating an activation stopped after any number of writes ends with the same files and result as an uninterrupted one |
| CrashRecovery.CompletedIsActive | apps/api/scripts/materialize_phase2_residual_remediation.py:551-558 | after a completed activation the new generation resolves as active, verifies and carries the delta proposal |
| CrashRecovery.CompletedIsIdempotent | apps/api/scripts/materialize_phase2_residual_remediation.py:507-516 | repeating a completed activation writes nothing and returns the active generation |
| Generations.RunKeepsSound | apps/api/scripts/materialize_phase2_residual_remediation.py:366-558 | every run from a directory without a pointer, with failures, crashes and legacy rewrites, keeps a verified lineage behind the active generation |
| Generations.RunHoldsAcceptedDeltas | apps/api/scripts/materialize_phase2_residual_remediation.py:366-558 | the active generation holds exactly the base rows and the accepted deltas' rows in order, its number counts them, and ids are distinct from the second generation on |
| Generations.RunWalksToTheRoot | apps/api/scripts/materialize_phase2_residual_remediation.py:461-480 | following parent references verifies at each hop, keeps the master hash, strictly lowers the generation from hop to hop and ends at the root, generation 1 when there was no legacy base |
| Generations.RunOverwritesNothing | apps/api/scripts/materialize_phase2_residual_remediation.py:343-558 | over any run no file but the pointer and the legacy file ever changes once it exists |
| Generations.HeldIdsAreRefused | apps/api/scripts/materialize_phase2_residual_remediation.py:436-448 | a delta that names an occurrence id the parent holds is never merged |
| Generations.WhenDeltaIsMerged | apps/api/scripts/materialize_phase2_residual_remediation.py:366-558 | on a verified parent, given or active, with free names, a verified delta of another proposal is merged exactly when both name one master and the occurrence ids and the override ids of all objects of the two are each non-empty and pairwise distinct; otherwise which error, and on success the rows, the number, the reference back and that it is active |
| Generations.WhenActivationIsRefused | apps/api/scripts/materialize_phase2_residual_remediation.py:483-516 | exactly when a delta, a proposal digest, a pointer or a parent is refused, that nothing is written then, and that a delta whose proposal is the parent's is found active |
| Generations.WhenPointerResolves | apps/api/src/services/residual_remediation_authority.py:60-99 | for any directory: which document is active, and exactly when the pointer is unsound or stale |
| Generations.FirstIsPublished | apps/api/scripts/materialize_phase2_residual_remediation.py:386-558 | on an empty directory a valid delta is published as generation 1 whatever its rows, and resolves as active |
| Generations.WhenGenerationCanGrow | apps/api/scripts/materialize_phase2_residual_remediation.py:431-459 | some delta can be merged into a generation exactly when its own occurrence and override ids are distinct |
| Generations.UncheckedFirstGenerationIsFinal | apps/api/scripts/materialize_phase2_residual_remediation.py:386-399 | a first delta with repeated ids is activated all the same; every later activation then fails without a pointer write, or finds its delta already active |
| Rollback.Directory.constructor | apps/api/scripts/apply_phase3_batch_review_proposal.py:188-193 | a directory starts with the given files and a fixed oracle of failing operations |
| Rollback.Directory.ApplyCases | apps/api/scripts/apply_phase3_batch_review_proposal.py:194-231 | the apply loop either applies every case in order or fails, and never changes what would be restored |
| Rollback.Directory.RestoreAll | apps/api/scripts/apply_phase3_batch_review_proposal.py:66-73 | restoring snapshots in any order that lists each path leaves exactly the snapshotted contents and absences |
| Rollback.Directory.ApplyPhase3 | apps/api/scripts/apply_phase3_batch_review_proposal.py:188-231 | the Phase 3 apply step leaves every file as it was on any failure, with no condition on the cases |
| Rollback.Directory.ApplyPhase2 | apps/api/scripts/apply_phase2_batch_review_proposal.py:196-254 | a failing Phase 2 apply step leaves what its snapshots-while-writing allow, at every possible stopping point |
| Rollback.OtherFilesKept | apps/api/scripts/apply_phase2_batch_review_proposal.py:196-211 | approvals and audits are restored in every case, repeated or not |
| Rollback.WhenPhase2RollsBack | apps/api/scripts/apply_phase2_batch_review_proposal.py:196-254 | Phase 2 undoes a failure at every point exactly when no two cases share a root, except where the earlier decisions were already on disk |
| Rollback.RepeatedCaseIsLeftBehind | apps/api/scripts/apply_phase2_batch_review_proposal.py:196-254 | the failing family: for two cases on one root the first decisions stay on disk after the rollback |
| Phase2Batch.ApplyBatchProposal | apps/api/scripts/apply_phase2_batch_review_proposal.py:92-254 | all cases are recorded or the batch fails; refused or unprepared batches change nothing, and with distinct cases no failure changes anything |
| Phase2Batch.WhenBatchIsAdmitted | apps/api/scripts/apply_phase2_batch_review_proposal.py:92-135 | a batch is admitted exactly when it is hashed over its own content and awaits approval, a label is given, the token reads as expected up to blanks and case, reviewer and time are given, and every referenced file is as it was; the first changed one is named |
| Phase2Batch.ExpectedTokenIsAccepted | apps/api/scripts/apply_phase2_batch_review_proposal.py:80-115 | the expected token is accepted for every label, in any letter case |
| Phase2Admission.WhenCaseIsPrepared | apps/api/scripts/apply_phase2_batch_review_proposal.py:136-194 | a listed case is prepared exactly when its files are in its own directory with the recorded digests and its proposal materializes; its decisions are those |
| Phase2Admission.WhenCaseIsReviewed | apps/api/scripts/apply_phase2_batch_review_proposal.py:212-254 | a case is applied exactly when its files can be read, earlier approvals only beside a timeline, and its decisions are recorded; the audit names who decided, on what, by which decisions and the counts |
| Phase2Batch.DistinctCasesApply | apps/api/scripts/apply_phase2_batch_review_proposal.py:212-254 | on distinct roots all cases are applied exactly when each could be applied alone, with the same approvals |
| Phase2Batch.WhenBatchIsRecorded | apps/api/scripts/apply_phase2_batch_review_proposal.py:136-254 | a batch of distinct, unchanged, built cases goes through exactly when each has clean ids, a non-empty queue, resolved rows and readable history; each case then holds the approval of every row of its proposal and no other for that object, except for objects its timeline leaves out |
| Phase2Batch.WhenBatchIsRecordedInFull | apps/api/scripts/apply_phase2_batch_review_proposal.py:136-254 | every approved row of every case is recorded exactly when each case goes through and has no timeline or one that lists its whole queue |
| Phase2Review.BuildReviewProposal | apps/api/scripts/build_phase2_review_proposal.py:250-417 | the loops with their counters build the declared proposal or the first error; when, and with which texts and decisions, is `WhenProposalIsBuilt` and `BuildPromises` |
| Phase2Review.ValidateReviewProposal | apps/api/scripts/build_phase2_review_proposal.py:420-474 | validation reports the first fault in the order of its checks |
| Phase2Admission.WhenProposalValidates | apps/api/scripts/build_phase2_review_proposal.py:420-474 | for any proposal: it validates exactly when hashed over its own content, made for this queue, covering its ids once, and with every row's text the one that goes with its decision; otherwise which error |
| Phase2Review.MaterializeApprovedProposal | apps/api/scripts/materialize_phase2_review_proposal.py:61-123 | materialization yields the declared decision set or stops at the first unusable row |
| Phase2Admission.WhenProposalMaterializes | apps/api/scripts/materialize_phase2_review_proposal.py:61-123 | for any proposal: decisions are made exactly when it validates, is the approved one, reviewer and time are given and every row is decided; they are its rows in order, with all references |
| Phase2Chain.CropAuthorityIsTrimmed | apps/api/scripts/build_phase2_review_proposal.py:60-110 | every text of the crop authority is non-empty and trimmed |
| Phase2Chain.BuildPromises | apps/api/scripts/build_phase2_review_proposal.py:250-417 | a built proposal is self-hashed and bound to its queue; in each row the text is none for a rejection or required input, else the recommended one, else the one all matched crops agree on, else the candidate; the decision is the recommended one, else APPROVE exactly for the candidate, EDIT for another text; the counters are totals over the rows and the groups those of its rows |
| Phase2Chain.WhenProposalIsBuilt | apps/api/scripts/build_phase2_review_proposal.py:181-345 | a proposal is built exactly when every recommendation is well-formed and for a listed id, every object has an id, and each chosen decision goes with its chosen text |
| Phase2Chain.WhenCropsAgree | apps/api/scripts/build_phase2_review_proposal.py:284-301 | the matched crops agree on a text exactly when some geometry reference of the object has a reviewed crop with that text and none has another |
| Phase2Chain.WhenBuiltProposalValidates | apps/api/scripts/build_phase2_review_proposal.py:420-474 | a built proposal passes validation exactly when the queue ids are distinct and stored trimmed |
| Phase2Chain.CountsBalance | apps/api/scripts/build_phase2_review_proposal.py:273-405 | carried plus manual rows equal the objects, and decided plus undecided rows do too |
| Phase2Chain.WhenBuiltProposalMaterializes | apps/api/scripts/materialize_phase2_review_proposal.py:61-123 | materialization succeeds exactly for clean ids, the matching hash, a named reviewer, and rows that are REJECT_UI or have a decision with text; the decisions are then the rows in order |
| Phase2Chain.WhenRowIsResolved | apps/api/scripts/build_phase2_review_proposal.py:281-344 | which inputs resolve a row: a rejection, or any text at hand unless input is demanded |
| Phase2Chain.CarriedTextIsReviewed | apps/api/scripts/build_phase2_review_proposal.py:284-311 | a row is carried forward only without a recommendation and with a text all its reviewed crops agree on |
| OperatorReview.ApplyOperatorReview | apps/api/src/services/phase2_operator_review.py:87-223 | the two loops record the declared approvals (surviving earlier ones and the fresh decisions, in timeline order) with the counts of the audit |
| Phase2Admission.WhenDecisionsAreRecorded | apps/api/src/services/phase2_operator_review.py:87-176 | for any decision set: it is recorded exactly when hashed over its own content, made for this queue, with reviewer and time, and deciding every object of the queue and no other in a way it allows; earlier approvals have no say |
| Phase2Admission.WhatIsRecorded | apps/api/src/services/phase2_operator_review.py:110-190 | what is written for an object the timeline lists: the last decision of its id with the text trimmed, under the hash of the last object of the id |
| OperatorReview.WhenDecisionIsRecorded | apps/api/src/services/phase2_operator_review.py:110-190 | the recorded approval of a queue object is its fresh decision and only that, and it is recorded exactly when there is no timeline or the timeline lists the object |
| OperatorReview.WhenEarlierApprovalIsKept | apps/api/src/services/phase2_operator_review.py:116-190 | an approval of an object not decided anew is written exactly when there is a timeline, it belongs to the same Phase 1 run, and it is the last of its id that is complete and has the current review hash |
| OperatorReview.WrittenInOrder | apps/api/src/services/phase2_operator_review.py:173-190 | the written approvals are in the order of the timeline, or without one of the queue |
| OperatorReview.CountsShowDrops | apps/api/src/services/phase2_operator_review.py:173-220 | the audit counts at least as many fresh and kept approvals as are written, and exactly as many just when no decision was dropped |
| OperatorReview.WhenBuiltDecisionsAreRecorded | apps/api/src/services/phase2_operator_review.py:87-176 | decisions materialized from a built proposal are accepted exactly when the queue is not empty; each proposal row is then recorded as it stands, and nothing else for its object, unless a timeline leaves the object out |
| OperatorReview.ChosenIsRecorded | apps/api/src/services/phase2_operator_review.py:87-190 | from the inputs of the build to the approvals: what is recorded for an object is the text and the decision chosen from its recommendation, its crops and its candidate, and nothing else, unless a timeline leaves the object out |
| OperatorReview.WhenAllAreHeld | apps/api/src/services/phase2_operator_review.py:185-192 | then all rows of the proposal are among the approvals exactly when there is no timeline or it lists every queue object |
| OperatorReview.WhenMaterializedIsRecorded | apps/api/src/services/phase2_operator_review.py:87-193 | for any materialized proposal: its decisions are accepted exactly when the queue is not empty, its ids carry no blanks, and every approving row gives the candidate of the queue; each row is then recorded as it stands unless a timeline leaves its object out |
| OperatorReview.ForeignCandidateIsRefusedLate | apps/api/src/services/phase2_operator_review.py:160-165 | a proposal that approves a candidate of its own validates and materializes, and is refused only when it is recorded |
| TransitionGroups.TransitionMergeGroups | apps/api/scripts/build_phase2_review_proposal.py:135-178 | the first-fit loop and its final filter return exactly the groups of at least two rows |
| TransitionGroups.GroupsPartition | apps/api/scripts/build_phase2_review_proposal.py:135-160 | groups partition the rows with text, share one normalized text, and each member after the first touches an earlier one |
| TransitionGroups.OfferedAre | apps/api/scripts/build_phase2_review_proposal.py:159-178 | what is offered: every group of two rows or more, in order, under the id and text of its first row with the ids and references of all |
| TransitionGroups.SameGroupIsConnected | apps/api/scripts/build_phase2_review_proposal.py:127-160 | rows of one group are connected by same-text touching rows |
| TransitionGroups.WhenGroupsAreComponents | apps/api/scripts/build_phase2_review_proposal.py:135-160 | first fit gives the connected components exactly when no row joins earlier rows that were not yet connected |
| TransitionGroups.SortedRowsFormComponents | apps/api/scripts/build_phase2_review_proposal.py:135-160 | for rows of at most one span sorted by first frame the groups are the connected components |
| TransitionGroups.BridgingRowIsMissed | apps/api/scripts/build_phase2_review_proposal.py:135-160 | the failing family: a row touching two rows that do not touch leaves them in separate groups |
| TransitionGroups.BridgingRowExists | apps/api/scripts/build_phase2_review_proposal.py:135-160 | a concrete unsorted queue with one component and two groups |
| ReviewedAuthority.ReviewedCropAuthority | apps/api/scripts/build_phase2_review_proposal.py:60-110 | the nested loops compute the declared crop lookup |
| ReviewedAuthority.LookupIsAgreement | apps/api/scripts/build_phase2_review_proposal.py:91-110 | a key ends with a text exactly when it is claimed and all its claims agree on that text |
| ReviewedAuthority.CropTextIsAgreed | apps/api/scripts/build_phase2_review_proposal.py:91-110 | a crop digest maps to a text exactly when some reviewed object shows the crop and all that do agree |
| ReviewedAuthority.CropTextIsReviewed | apps/api/scripts/build_phase2_review_proposal.py:60-110 | from the stored files: a crop digest maps to a text exactly when the last complete approvals of the objects that show the crop give that text and no other |
| ReviewedAuthority.CropAuthorityIgnoresOrder | apps/api/scripts/build_phase2_review_proposal.py:60-110 | with one usable approval per content id, no order of timeline or approvals changes a text |
| ReviewedAuthority.BuildReferenceEdits | apps/api/scripts/build_phase3_reference_edits.py:42-106 | the loops compute the declared edits and unmatched ids, or fail on a row without id or text |
| ReviewedAuthority.TranslationIsAgreed | apps/api/scripts/build_phase3_reference_edits.py:51-78 | a Chinese text is mapped exactly when it has a decided approval and all give the same translation |
| ReviewedAuthority.TranslationIsReviewed | apps/api/scripts/build_phase3_reference_edits.py:42-78 | from the stored files: a Chinese text is translated exactly when complete approvals do so and all agree |
| ReviewedAuthority.TranslationsIgnoreOrder | apps/api/scripts/build_phase3_reference_edits.py:42-78 | with one text per content id no order of timeline or approvals changes a translation |
| ReviewedAuthority.EditsPartitionTheQueue | apps/api/scripts/build_phase3_reference_edits.py:80-106 | with distinct ids each queue row is edited with the agreed translation or unmatched, never both, and the counts add up |
| ReviewedAuthority.WhenEditsAreBuilt | apps/api/scripts/build_phase3_reference_edits.py:80-106 | the edits are built exactly when every queue row has an id and a Chinese text |
| Keyed.KeysAreDistinct | apps/api/scripts/apply_phase3_review_proposal.py:92-101 | reading rows into a dictionary lists each id once |
| Phase3Review.BuildReviewProposal | apps/api/scripts/build_phase3_review_proposal.py:128-214 | the loop with its edit counter builds the declared proposal or the first error; when, and with which texts, is `WhenProposalIsBuilt` and `BuildPromises` |
| Phase3Review.BuildPromises | apps/api/scripts/build_phase3_review_proposal.py:128-214 | a built proposal covers its queue row by row, is self-hashed, bound and unapproved; each row proposes the trimmed edit where its id has a non-empty one and the trimmed candidate otherwise, as EDIT exactly where that changes it; the summary counts the changed rows and sums the flags |
| Phase3Review.WhenProposalIsBuilt | apps/api/scripts/build_phase3_review_proposal.py:128-214 | a proposal is built exactly for a non-empty queue of distinct non-empty ids, edits of listed ids only, a named author, and rows with candidate, 64-digit hash, a chosen text without CJK and kept tokens; otherwise which error |
| Phase3Review.ApplyReviewProposal | apps/api/scripts/apply_phase3_review_proposal.py:56-171 | the loop with its edit counter yields the declared approvals and audit or the first error |
| Phase3Review.AcceptedProposalCovers | apps/api/scripts/apply_phase3_review_proposal.py:92-171 | whatever proposal is accepted, the approvals name every queue id exactly once, APPROVE exactly where the text is the candidate, and the audit counts them |
| Phase3Admission.WhenProposalIsAccepted | apps/api/scripts/apply_phase3_review_proposal.py:56-171 | for any proposal: it is accepted exactly when an operator is named, it is hashed, ready, unapproved and made for this queue and authority, covers its ids, and each row matches its queue row and approves just the candidate; each decision is then written, and the audit names all it was made from |
| Phase3Review.WhenBuiltProposalIsAccepted | apps/api/scripts/apply_phase3_review_proposal.py:56-171 | a built proposal is accepted exactly when the operator is named, the template carries the queue authority and every review hash is stored without blanks; approvals and counts then follow the proposal row by row |
| Phase3Review.ApprovesExactlyTheCandidates | apps/api/scripts/apply_phase3_review_proposal.py:113-148 | such approvals say APPROVE exactly where the text is the candidate, EDIT elsewhere |
| Phase3Review.ApprovesTheChosenTexts | apps/api/scripts/apply_phase3_review_proposal.py:113-148 | applied, a built proposal approves for every row the edit given to the build or else the candidate |
| Phase3Batch.BuildBatchReviewIndex | apps/api/scripts/build_phase3_batch_review_index.py:117-274 | the loop with its totals builds the declared index or the first error; the totals are given by `IndexTotals` |
| Phase3Admission.WhenIndexIsBuilt | apps/api/scripts/build_phase3_batch_review_index.py:117-262 | an index is built exactly when the state has cases, each without text or listed, and a date is given or some case waits |
| Phase3Batch.ApplyBatchReviewProposal | apps/api/scripts/apply_phase3_batch_review_proposal.py:76-231 | on any refusal or failure no file has changed; on success every case was applied in order |
| Phase3Admission.WhenIndexIsAdmitted | apps/api/scripts/apply_phase3_batch_review_proposal.py:76-117 | an index is admitted exactly when hashed over its own content, awaiting review, not yet approved, named by the token with its label (dots and hyphens as underscores), with operator and time, and of the current state |
| Phase3Admission.WhenCaseIsPrepared | apps/api/scripts/apply_phase3_batch_review_proposal.py:118-186 | a listed case is prepared exactly when its files are in its own directory, readable and as listed, its proposal is hashed over its own content and its template carries no decision |
| Phase3Admission.WhenBatchIsRefused | apps/api/scripts/apply_phase3_batch_review_proposal.py:76-187 | nothing is refused exactly when the index is admitted, every case prepared and the case count right; the first unprepared case decides the error |
| Phase3EndToEnd.PrintedToken | apps/api/scripts/build_phase3_batch_review_index.py:61-68 | the printed token is the expected one, and is accepted exactly when the normalized label is upper case |
| Phase3EndToEnd.IndexLists | apps/api/scripts/build_phase3_batch_review_index.py:138-251 | every indexed case has readable, bound, covering and undecided files that match its row |
| Phase3EndToEnd.WhenCaseIsListed | apps/api/scripts/build_phase3_batch_review_index.py:138-210 | a waiting case with readable files is listed exactly when its proposal is hashed, ready, unapproved, bound and covering, its template undecided, and its object count that of the distinct ids |
| Phase3EndToEnd.IndexTotals | apps/api/scripts/build_phase3_batch_review_index.py:211-274 | the index lists one row per waiting case; its five totals are the sums over their queue and proposal files, and it is blocked exactly when the failed translations do not sum to zero |
| Phase3EndToEnd.ListedArePrepared | apps/api/scripts/apply_phase3_batch_review_proposal.py:118-186 | indexed cases pass every preparation check of the batch application |
| Phase3EndToEnd.ApplyAllListed | apps/api/scripts/apply_phase3_batch_review_proposal.py:188-231 | indexed cases with built proposals are all applied exactly when each template and review hash is in order, and only their reviews change |
| Phase3EndToEnd.WhenIndexedBatchIsAccepted | apps/api/scripts/apply_phase3_batch_review_proposal.py:76-231 | end to end on the files: index, printed token and application succeed exactly when the failed translations of the listed queues sum to zero, the label is upper case, operator and time are given and each case is approvable; each case then holds, row by row, the edit or candidate its proposal was built from, with counts equal to its summary |
| Phase3EndToEnd.AcceptedHasNoFailure | apps/api/scripts/build_phase3_batch_review_index.py:235-262 | with counts that are not negative the failed translations sum to zero exactly when no listed queue has any |
| DenseEpoch.MergeIntervals | apps/api/scripts/build_phase4_dense_ui_panel_proposal.py:68-75 | the in-place loop computes the declared merge |
| DenseEpoch.MergePreservesFrames | apps/api/scripts/build_phase4_dense_ui_panel_proposal.py:68-75 | merging keeps exactly the covered frames for all inputs and leaves an uncovered frame between consecutive intervals |
| DenseEpoch.SelectDenseEpoch | apps/api/scripts/build_phase4_dense_ui_panel_proposal.py:78-124 | the loops compute the declared epoch and tracks or the error |
| DenseEpoch.OverlapIsContainment | apps/api/scripts/build_phase4_dense_ui_panel_proposal.py:118-123 | an eligible track overlaps a merged interval exactly when it lies inside it |
| DenseEpoch.DenseEpochIsSound | apps/api/scripts/build_phase4_dense_ui_panel_proposal.py:78-124 | chosen tracks are the eligible ones inside the epoch and cover it frame by frame; the epoch is bounded, no candidate covers more residual frames, and selection fails exactly without a candidate |
| DenseEpoch.WhenEpochIsChosen | apps/api/scripts/build_phase4_dense_ui_panel_proposal.py:78-124 | the epoch is the first, among the merged intervals short enough that hold a residual frame, with the most of them; a track is chosen exactly when it covers the residual, is dense, shows twenty texts at once and lies in the epoch, an end of zero or none being -1 |
| DenseEpoch.WhenZeroEndIsChosen | apps/api/scripts/build_phase4_dense_ui_panel_proposal.py:97-124 | a track whose end is zero or missing is chosen exactly when it qualifies, starts before frame 0, and the epoch reaches from there to -1 |
| DenseEpoch.PanelRoiContains | apps/api/scripts/build_phase4_dense_ui_panel_proposal.py:127-157 | the panel region lies in the unit square, has area, and contains every detection of the span as far as visible |
| DenseEpoch.RegionIsTight | apps/api/scripts/build_phase4_dense_ui_panel_proposal.py:127-157 | each side of the panel region is that of some box seen in the span, moved out by its padding and cut to the frame; without any box it is the missing-geometry error |
| DenseEpoch.WhenPanelRoiExists | apps/api/scripts/build_phase4_dense_ui_panel_proposal.py:127-157 | with valid boxes and a padding of at least the tolerance the region fails exactly when the span has no geometry |
| IntersectionIndex.Phase1GeometryIntersections | apps/api/scripts/build_phase4_residual_visual_triage.py:208-281 | the nested loops update the index to the fold over all contacts and list its records once each, by falling overlap and then by id; or raise on the first unusable detection |
| IntersectionIndex.IndexSumsUpPairs | apps/api/scripts/build_phase4_residual_visual_triage.py:219-277 | a text id has a record exactly when some detection and row meet under it; for any monotone idempotent rounding the record holds the rounded maximum overlap of all such pairs, just the frames and active frames they meet on, and span, geometry and text of the first |
| IntersectionIndex.WhenTheyMeet | apps/api/scripts/build_phase4_residual_visual_triage.py:219-262 | a detection and a row meet exactly when the row has usable pixels and the detection, scaled to pixels, shares 0.05 of the smaller area with them; the contact is active when the row covers the frame |
| IntersectionIndex.ListingIsUnique | apps/api/scripts/build_phase4_residual_visual_triage.py:278-281 | only one list of the records is in that order |
| IntersectionIndex.AllContactsAre | apps/api/scripts/build_phase4_residual_visual_triage.py:219-262 | the contacts are those of every detection and row at overlap 0.05 or more, and exist exactly when every detection has a usable rectangle |
| FalsePositiveBundle.Materialize | apps/api/scripts/materialize_phase4_output_false_positive_decisions.py:155-325 | the loops refuse an unsound prior file, carry its approvals over, replace by cluster id and append, or stop at the first missing or empty cluster |
| FalsePositiveBundle.CheckPrior | apps/api/src/media_pipeline/video_renderer/phase4_approvals.py:174-215 | the pass over the ids accepts a version 2 file exactly when it is not empty and every entry has an id of its own |
| FalsePositiveBundle.DecidedHoldsNewest | apps/api/scripts/materialize_phase4_output_false_positive_decisions.py:186-235 | under each id stays the newest decision, or what was carried when none was made, and ids stay unique |
| FalsePositiveBundle.WrittenInOrder | apps/api/scripts/materialize_phase4_output_false_positive_decisions.py:318-325 | the approvals of a written file are in the order of its sort |
| FalsePositiveBundle.MaterializationKeepsIds | apps/api/scripts/materialize_phase4_output_false_positive_decisions.py:155-325 | whatever the prior file, a materialization that goes through keeps ids unique and every earlier id, and holds the newest decision about each; what it writes loads again exactly when every decision names its cluster |
| FalsePositiveBundle.RunKeepsIds | apps/api/scripts/materialize_phase4_output_false_positive_decisions.py:122-325 | over any run from any file, an id approved after some batch is still approved at the end |
| FalsePositiveBundle.RunHoldsNewest | apps/api/scripts/materialize_phase4_output_false_positive_decisions.py:122-325 | over any run from any file, an id decided by a batch that was written has exactly one approval, with the evidence of the newest such decision; an undecided id holds just what the first file held |
| FalsePositiveBundle.NamelessDecisionIsFinal | apps/api/src/media_pipeline/video_renderer/phase4_approvals.py:189-208 | once a decision without a cluster id is stored, no later batch writes the file |
| FalsePositiveBundle.VersionOneIsRenamed | apps/api/scripts/materialize_phase4_output_false_positive_decisions.py:166-186 | the approval of a version 1 file, stored without an id, loads and is known as legacy_v1_001 from then on |

## Left out

- Rollback.Directory.ApplyPhase2: a failure of the restore step itself, and of the result file written after the batch, is not modelled.
- Rollback.Directory.ApplyPhase3: a failure of the restore step itself, and of the result file written after the batch, is not modelled.
- Activation.ArtifactRoot.ActivateCumulative: a parent given by a path outside the artifact root is not modelled; a missing file stands for it.
- CrashRecovery.ActivationRecovers: a parent explicitly given as the pointer file itself is excluded, because completing the activation replaces it.
- Generations.RunHoldsAcceptedDeltas: the exact generation number is stated for legacy bases numbered 1 or more; strict decrease along the walk holds for all.
- FalsePositiveBundle.Materialize: the authority hashes and their checks, the copying of evidence images and the choice of the representative detection are one opaque content per cluster; a run is that of one case, and a batch refused over a hash counts as absent from it.
- SourceScan.SourceScanner.ScanSourceFrames: a frame loader that raises on an undecodable frame ends the program and is not modelled; a frame it does not return counts as a miss.
- Normalization.NormalizeResidualDetections: the consensus text, the text similarity and the digest naming an object are arbitrary functions; its audit and preview images are not modelled, and protected tracks arrive as ranges with rectangles.
- ReviewedResiduals.ProposeReviewedOccurrences: occurrences that expand an existing subtitle take another branch and are not modelled.
- Occurrences.EmitOccurrence: evidence images, digests naming an occurrence, the fixed rewordings of a render text, and the choice of a suggested translation are not modelled; the suggestion is given.
- OperatorReview.ApplyOperatorReview: the copied review evidence and translated text of a row are not modelled.
- Phase3Review.BuildReviewProposal: reasons, roles and flag texts of rows are not modelled, and edits arrive already normalized; flags are counted.
- Phase2Review.BuildReviewProposal: confidence, reasons and crop digest lists of rows are not modelled.
- DenseEpoch.PanelRoiContains: NaN and rounding of floating-point coordinates are not modelled; coordinates are reals throughout.
- FrameScan.InferContiguousHitWindow: the error text is not modelled, only which error occurs.
- Text: blanks and letter case are those of ASCII; Unicode whitespace, case folding and normalization are not modelled.
- The expansion of existing Phase-2 geometry and caption choice: selection over foreign text similarity.
- Video decoding, OCR, image writing, contact sheets, Markdown, command lines, timestamps and JSON bytes: foreign calls or plumbing.
- Path resolution: a case directory and its files are named directly; links and nested case directories are not modelled.
- Rows that are not JSON objects: kept only in remediation documents; the other scripts skip or refuse them alike.
- Capturing the approved Phase 3 translations inside a remediation, and visual overrides: part of the opaque remainder of a remediation document.
