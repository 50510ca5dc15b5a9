/** Whole runs of activations: what the active generation holds, and what its parent references lead back to. */
module Generations {
  import opened Prelude
  import opened Remediation
  import opened Activation
  import opened CrashRecovery

  /** An activation that stops after some of its writes, or a rewrite of the mutable legacy file by its own tools. */
  datatype Event = Attempt(delta: Remediation, stopAfter: nat) | RewriteLegacy(document: Document)

  /** The files, the legacy document the first accepted delta was merged into, and the accepted deltas. */
  datatype Ledger = Ledger(files: Files, base: Option<Remediation>, accepted: seq<Remediation>)

  predicate Completes(o: Outcome, stopAfter: nat) { o.result.Ok? && o.writes != [] && |o.writes| <= stopAfter }

  function LegacyParent(files: Files): Option<Remediation> {
    if LegacyFile in files && files[LegacyFile].RemediationDoc? then Some(files[LegacyFile].remediation) else None
  }

  function Step(s: Ledger, prefix: Prefix, event: Event): Ledger {
    match event
    case RewriteLegacy(document) => s.(files := s.files[LegacyFile := document])
    case Attempt(delta, stopAfter) =>
      var o := Activate(s.files, prefix, delta, None);
      var files := Applied(s.files, o.writes[..Min(stopAfter, |o.writes|)]);
      if Completes(o, stopAfter) then
        Ledger(files, if s.accepted == [] then LegacyParent(s.files) else s.base, s.accepted + [delta])
      else s.(files := files)
  }

  function Run(s: Ledger, prefix: Prefix, events: seq<Event>): Ledger {
    if events == [] then s else Step(Run(s, prefix, events[..|events| - 1]), prefix, events[|events| - 1])
  }

  // ----- Lineage -----

  /** The parent a document refers to, if both recorded hashes and its own self-hash still verify. */
  function ParentOf(files: Files, r: Remediation): Option<(Name, Remediation)> {
    match r.body.authority.parent
    case None => None
    case Some(ref) =>
      if ref.name in files && files[ref.name].RemediationDoc? && OfFile(files[ref.name]) == ref.fileSha
         && Verified(files[ref.name].remediation) && files[ref.name].remediation.selfSha == ref.remediationSha
      then Some((ref.name, files[ref.name].remediation)) else None
  }

  /** `r` was made from `base` by merging `deltas` in order, each parent still in place under a name no tool rewrites. */
  ghost predicate DescendsFrom(files: Files, r: Remediation, base: Option<Remediation>, deltas: seq<Remediation>) {
    if deltas == [] then base == Some(r)
    else if |deltas| == 1 && base.None? then r == FirstGeneration(deltas[0])
    else
      var delta := deltas[|deltas| - 1];
      && ParentOf(files, r).Some?
      && var (name, parent) := ParentOf(files, r).value;
      && name != LegacyFile && name != PointerFile
      && MergeFailure(delta, parent).None? && r == NextGeneration(delta, parent, name)
      && DescendsFrom(files, parent, base, deltas[..|deltas| - 1])
  }

  /** The invariant of every run. */
  ghost predicate Sound(s: Ledger) {
    if s.accepted == [] then PointerFile !in s.files
    else
      && (forall i :: 0 <= i < |s.accepted| ==> Verified(s.accepted[i]))
      && ResolveActive(s.files).Ok? && ResolveActive(s.files).value.Some?
      && ResolveActive(s.files).value.value.GenerationFile?
      && var loaded := LoadParent(s.files, ResolveActive(s.files).value.value);
      loaded.Ok? && DescendsFrom(s.files, loaded.value, s.base, s.accepted)
  }

  /** Every file but the pointer and the legacy file is still there, unchanged. */
  ghost predicate Preserves(before: Files, after: Files) {
    forall name :: name in before && name != PointerFile && name != LegacyFile ==> name in after && after[name] == before[name]
  }

  lemma {:induction false} DescentIsPreserved(before: Files, after: Files, r: Remediation, base: Option<Remediation>, deltas: seq<Remediation>)
    requires Preserves(before, after) && DescendsFrom(before, r, base, deltas)
    ensures DescendsFrom(after, r, base, deltas)
  {
    if deltas != [] && !(|deltas| == 1 && base.None?) {
      var (name, parent) := ParentOf(before, r).value;
      DescentIsPreserved(before, after, parent, base, deltas[..|deltas| - 1]);
    }
  }

  lemma RewriteKeepsSound(s: Ledger, prefix: Prefix, document: Document)
    requires Sound(s)
    ensures Sound(Step(s, prefix, RewriteLegacy(document)))
  {
    hide MergeFailure;
    var after := s.files[LegacyFile := document];
    if s.accepted != [] {
      var name := ResolveActive(s.files).value.value;
      var r := LoadParent(s.files, name).value;
      DescentIsPreserved(s.files, after, r, s.base, s.accepted);
    }
  }

  lemma InterruptionKeepsSound(s: Ledger, prefix: Prefix, delta: Remediation, stopAfter: nat)
    requires Sound(s) && !Completes(Activate(s.files, prefix, delta, None), stopAfter)
    ensures Sound(Step(s, prefix, Attempt(delta, stopAfter)))
  {
    var o := Activate(s.files, prefix, delta, None);
    var k := Min(stopAfter, |o.writes|);
    ActivationWritesOnce(s.files, prefix, delta, None);
    ActivationEnds(s.files, prefix, delta, None);
    if o.writes == [] {
      NothingWritten(s.files, o);
    } else {
      KeptBySound(s, o, k, delta);
    }
  }

  lemma KeptBySound(s: Ledger, o: Outcome, k: nat, delta: Remediation)
    requires Sound(s) && k <= |o.writes| && WritesOnce(s.files, o.writes) && EndsByPointing(s.files, delta, o)
    requires k < |o.writes| || o.result.Err?
    ensures Sound(s.(files := Stopped(s.files, o, k)))
  {
    var after := Stopped(s.files, o, k);
    PointerKept(s.files, o, k, delta);
    hide Stopped, WritesOnce, EndsByPointing;
    if s.accepted != [] {
      InterruptedKeepsActive(s.files, o, k, delta);
      var r := LoadParent(s.files, ResolveActive(s.files).value.value).value;
      DescentIsPreserved(s.files, after, r, s.base, s.accepted);
    }
  }

  /** What a completed activation has merged, and that the parent it names is on disk. */
  ghost predicate MergedInto(prefix: Prefix, delta: Remediation, parentName: Option<Name>, before: Files, r: Remediation, after: Files) {
    if parentName.None? then r == FirstGeneration(delta)
    else
      && LoadParent(before, parentName.value).Ok?
      && var parent := LoadParent(before, parentName.value).value;
      && MergeFailure(delta, parent).None?
      && var name := SnapshotName(prefix, parentName.value, parent);
      && r == NextGeneration(delta, parent, name)
      && name in after && after[name] == RemediationDoc(parent)
  }

  lemma MergeResult(files: Files, prefix: Prefix, delta: Remediation, parentName: Name)
    requires parentName != PointerFile && MergeAndPublish(files, prefix, delta, parentName).result.Ok?
    ensures var o := MergeAndPublish(files, prefix, delta, parentName);
      MergedInto(prefix, delta, Some(parentName), files, o.result.value.1, Applied(files, o.writes))
  {
    hide Applied, MergeFailure, WritesOnce, NextGeneration;
    var parent := LoadParent(files, parentName).value;
    var copied := Snapshot(files, prefix, parentName, parent).value;
    var name := SnapshotName(prefix, parentName, parent);
    var after := Applied(files, copied);
    var rest := Publish(after, prefix, delta, NextGeneration(delta, parent, name));
    SnapshotIsThere(files, prefix, parentName, parent);
    PublishWritesOnce(after, prefix, delta, NextGeneration(delta, parent, name));
    SafeWritesExtend(after, rest.writes, |rest.writes|);
    AppliedSum(files, copied, rest.writes);
  }

  lemma SnapshotIsThere(files: Files, prefix: Prefix, parentName: Name, parent: Remediation)
    requires parentName != PointerFile && LoadParent(files, parentName) == Ok(parent)
    requires Snapshot(files, prefix, parentName, parent).Ok?
    ensures var after := Applied(files, Snapshot(files, prefix, parentName, parent).value);
      var name := SnapshotName(prefix, parentName, parent);
      name != PointerFile && name in after && after[name] == RemediationDoc(parent)
  {
  }

  lemma StoreAndBuildResult(files: Files, prefix: Prefix, delta: Remediation, parentName: Option<Name>)
    requires parentName != Some(PointerFile) && StoreAndBuild(files, prefix, delta, parentName).result.Ok?
    requires parentName.Some? ==> LoadParent(files, parentName.value).Ok?
    ensures var o := StoreAndBuild(files, prefix, delta, parentName);
      MergedInto(prefix, delta, parentName, files, o.result.value.1, Applied(files, o.writes))
  {
    hide Applied, WritesOnce, MergeAndPublish, MergeFailure, NextGeneration, FirstGeneration;
    var name := DeltaFile(prefix(delta.body.proposalSha));
    var stored := StoreOnce(files, name, RemediationDoc(delta)).value;
    var after := Applied(files, stored);
    var rest := Build(after, prefix, delta, parentName);
    AppliedSum(files, stored, rest.writes);
    if parentName.Some? {
      StoreKeepsParent(files, name, RemediationDoc(delta), parentName.value);
      MergeResult(after, prefix, delta, parentName.value);
    }
  }

  lemma StoreKeepsParent(files: Files, name: Name, document: Document, parentName: Name)
    requires StoreOnce(files, name, document).Ok? && LoadParent(files, parentName).Ok?
    ensures LoadParent(Applied(files, StoreOnce(files, name, document).value), parentName) == LoadParent(files, parentName)
  {
  }

  lemma ActivationResult(files: Files, prefix: Prefix, delta: Remediation)
    requires var o := Activate(files, prefix, delta, None); o.result.Ok? && o.writes != []
    ensures var o := Activate(files, prefix, delta, None);
      && Verified(delta) && ResolveActive(files).Ok? && ResolveActive(files).value != Some(PointerFile)
      && MergedInto(prefix, delta, ResolveActive(files).value, files, o.result.value.1, Applied(files, o.writes))
  {
    hide StoreAndBuild, Applied, ResolveActive, MergedInto;
    ThePointerIsNoParent(files);
    StoreAndBuildResult(files, prefix, delta, ResolveActive(files).value);
  }

  lemma NextDescends(prefix: Prefix, delta: Remediation, name: Name, parent: Remediation, r: Remediation, after: Files,
                     base: Option<Remediation>, earlier: seq<Remediation>)
    requires Verified(parent) && name != LegacyFile && name != PointerFile
    requires MergeFailure(delta, parent).None? && r == NextGeneration(delta, parent, name)
    requires name in after && after[name] == RemediationDoc(parent)
    requires DescendsFrom(after, parent, base, earlier) && (earlier == [] ==> base.Some?)
    ensures DescendsFrom(after, r, base, earlier + [delta])
  {
    hide MergeFailure;
    assert (earlier + [delta])[..|earlier|] == earlier;
    assert ParentOf(after, r) == Some((name, parent));
  }

  lemma CompletionKeepsSound(s: Ledger, prefix: Prefix, delta: Remediation, stopAfter: nat)
    requires Sound(s) && Completes(Activate(s.files, prefix, delta, None), stopAfter)
    ensures Sound(Step(s, prefix, Attempt(delta, stopAfter)))
  {
    var o := Activate(s.files, prefix, delta, None);
    assert o.writes[..|o.writes|] == o.writes;
    var after := Applied(s.files, o.writes);
    var r := o.result.value.1;
    ActivationResult(s.files, prefix, delta);
    CompletedIsActive(s.files, prefix, delta, None);
    ActivationEnds(s.files, prefix, delta, None);
    ActivationWritesOnce(s.files, prefix, delta, None);
    SafeWritesExtend(s.files, o.writes, |o.writes|);
    CompletedDescends(s, prefix, delta, r, after);
    hide Activate, Applied, WritesOnce, DescendsFrom, MergedInto, LegacyParent;
  }

  lemma CompletedDescends(s: Ledger, prefix: Prefix, delta: Remediation, r: Remediation, after: Files)
    requires Sound(s) && Extends(s.files, after)
    requires ResolveActive(s.files).Ok? && ResolveActive(s.files).value != Some(PointerFile)
    requires MergedInto(prefix, delta, ResolveActive(s.files).value, s.files, r, after)
    ensures DescendsFrom(after, r, if s.accepted == [] then LegacyParent(s.files) else s.base, s.accepted + [delta])
  {
    hide MergeFailure, NextGeneration;
    var parentName := ResolveActive(s.files).value;
    if parentName.Some? {
      var parent := LoadParent(s.files, parentName.value).value;
      var name := SnapshotName(prefix, parentName.value, parent);
      if s.accepted == [] {
        NextDescends(prefix, delta, name, parent, r, after, Some(parent), []);
      } else {
        DescentIsPreserved(s.files, after, parent, s.base, s.accepted);
        NextDescends(prefix, delta, name, parent, r, after, s.base, s.accepted);
      }
    }
  }

  lemma StepKeepsSound(s: Ledger, prefix: Prefix, event: Event)
    requires Sound(s)
    ensures Sound(Step(s, prefix, event))
  {
    hide Sound, Step;
    match event
    case RewriteLegacy(document) => RewriteKeepsSound(s, prefix, document);
    case Attempt(delta, stopAfter) =>
      if Completes(Activate(s.files, prefix, delta, None), stopAfter) {
        CompletionKeepsSound(s, prefix, delta, stopAfter);
      } else {
        InterruptionKeepsSound(s, prefix, delta, stopAfter);
      }
  }

  /** Every run from a directory without a pointer, whatever fails or stops on the way, keeps the lineage. */
  lemma {:induction false} RunKeepsSound(files: Files, prefix: Prefix, events: seq<Event>)
    requires PointerFile !in files
    ensures Sound(Run(Ledger(files, None, []), prefix, events))
  {
    hide Step;
    if events != [] {
      RunKeepsSound(files, prefix, events[..|events| - 1]);
      StepKeepsSound(Run(Ledger(files, None, []), prefix, events[..|events| - 1]), prefix, events[|events| - 1]);
    }
  }

  lemma StepOverwritesNothing(s: Ledger, prefix: Prefix, event: Event)
    ensures Preserves(s.files, Step(s, prefix, event).files)
  {
    hide Activate, Applied, WritesOnce;
    if event.Attempt? {
      var o := Activate(s.files, prefix, event.delta, None);
      ActivationWritesOnce(s.files, prefix, event.delta, None);
      SafeWritesExtend(s.files, o.writes, Min(event.stopAfter, |o.writes|));
    }
  }

  /** Over any run, no file but the pointer and the legacy file ever changes once it exists. */
  lemma {:induction false} RunOverwritesNothing(s: Ledger, prefix: Prefix, events: seq<Event>)
    ensures Preserves(s.files, Run(s, prefix, events).files)
  {
    hide Step;
    if events != [] {
      RunOverwritesNothing(s, prefix, events[..|events| - 1]);
      StepOverwritesNothing(Run(s, prefix, events[..|events| - 1]), prefix, events[|events| - 1]);
    }
  }

  // ----- What the lineage says -----

  function BaseRows(base: Option<Remediation>): (seq<Entry>, seq<Entry>) {
    match base
    case None => ([], [])
    case Some(r) => (Rows(r.body.occurrences), Rows(r.body.overrides))
  }

  /** The rows of the base followed by those of each delta, in order. */
  function Gathered(base: Option<Remediation>, deltas: seq<Remediation>): (seq<Entry>, seq<Entry>) {
    if deltas == [] then BaseRows(base)
    else
      var (occurrences, overrides) := Gathered(base, deltas[..|deltas| - 1]);
      var body := deltas[|deltas| - 1].body;
      (occurrences + Rows(body.occurrences), overrides + Rows(body.overrides))
  }

  function BaseGeneration(base: Option<Remediation>): int {
    match base
    case None => 0
    case Some(r) => GenerationOf(r)
  }

  /** The document reached by following `k` parent references, every one of which verifies. */
  function Ancestor(files: Files, r: Remediation, k: nat): Option<Remediation> {
    if k == 0 then Some(r)
    else
      match ParentOf(files, r)
      case None => None
      case Some((name, parent)) => Ancestor(files, parent, k - 1)
  }

  /** The number of parent references from a descendant back to its root. */
  function Hops(base: Option<Remediation>, deltas: seq<Remediation>): (hops: nat)
    ensures hops <= |deltas|
  {
    if base.None? && deltas != [] then |deltas| - 1 else |deltas|
  }

  function Root(base: Option<Remediation>, deltas: seq<Remediation>): Remediation
    requires base.Some? || deltas != []
  {
    if base.Some? then base.value else FirstGeneration(deltas[0])
  }

  lemma MergedRows(delta: Remediation, parent: Remediation, name: Name)
    ensures var r := NextGeneration(delta, parent, name);
      && Rows(r.body.occurrences) == Rows(parent.body.occurrences) + Rows(delta.body.occurrences)
      && Rows(r.body.overrides) == Rows(parent.body.overrides) + Rows(delta.body.overrides)
  {
    RowsOfMerge(parent.body.occurrences, delta.body.occurrences);
    RowsOfMerge(parent.body.overrides, delta.body.overrides);
  }

  lemma FirstRows(delta: Remediation)
    ensures var r := FirstGeneration(delta);
      Rows(r.body.occurrences) == Rows(delta.body.occurrences) && Rows(r.body.overrides) == Rows(delta.body.overrides)
  {
    RowsOfRows(delta.body.occurrences);
    RowsOfRows(delta.body.overrides);
  }

  /** A descendant holds exactly the rows of its base and of its deltas, in order. */
  lemma {:induction false} DescendantHoldsAll(files: Files, r: Remediation, base: Option<Remediation>, deltas: seq<Remediation>)
    requires DescendsFrom(files, r, base, deltas)
    ensures Gathered(base, deltas) == (Rows(r.body.occurrences), Rows(r.body.overrides))
  {
    hide FirstGeneration, NextGeneration, MergeFailure;
    if deltas == [] {
    } else if |deltas| == 1 && base.None? {
      FirstRows(deltas[0]);
      var body := deltas[0].body;
      assert deltas[..|deltas| - 1] == [];
      assert [] + Rows(body.occurrences) == Rows(body.occurrences) && [] + Rows(body.overrides) == Rows(body.overrides);
    } else {
      var (name, parent) := ParentOf(files, r).value;
      MergedRows(deltas[|deltas| - 1], parent, name);
      DescendantHoldsAll(files, parent, base, deltas[..|deltas| - 1]);
    }
  }

  /** The generation number counts the deltas, above a base numbered 1 or more. */
  lemma {:induction false} GenerationCounts(files: Files, r: Remediation, base: Option<Remediation>, deltas: seq<Remediation>)
    requires DescendsFrom(files, r, base, deltas) && (base.Some? ==> GenerationOf(base.value) >= 1)
    ensures GenerationOf(r) == BaseGeneration(base) + |deltas| && GenerationOf(r) >= 1
  {
    hide MergeFailure;
    if deltas != [] && !(|deltas| == 1 && base.None?) {
      GenerationCounts(files, ParentOf(files, r).value.1, base, deltas[..|deltas| - 1]);
    }
  }

  /** One step towards the root. */
  lemma DescentStep(files: Files, r: Remediation, base: Option<Remediation>, deltas: seq<Remediation>)
    requires DescendsFrom(files, r, base, deltas) && Hops(base, deltas) > 0
    ensures ParentOf(files, r).Some?
    ensures var (name, parent) := ParentOf(files, r).value;
      && Verified(parent) && DescendsFrom(files, parent, base, deltas[..|deltas| - 1])
      && parent.body.authority.masterSha == r.body.authority.masterSha
      && GenerationOf(parent) < GenerationOf(r)
  {
  }

  lemma RootIsReached(files: Files, r: Remediation, base: Option<Remediation>, deltas: seq<Remediation>)
    requires DescendsFrom(files, r, base, deltas) && Hops(base, deltas) == 0
    ensures base.Some? || deltas != []
    ensures r == Root(base, deltas)
  {
  }

  /**
   * Following `k` parent references from a descendant always succeeds up to its root, keeps the master hash, and lands on
   * the document that holds all but the last `k` deltas.
   */
  lemma {:induction false} WalkVerifies(files: Files, r: Remediation, base: Option<Remediation>, deltas: seq<Remediation>, k: nat)
    requires DescendsFrom(files, r, base, deltas) && k <= Hops(base, deltas)
    ensures Ancestor(files, r, k).Some?
    ensures var a := Ancestor(files, r, k).value;
      && DescendsFrom(files, a, base, deltas[..|deltas| - k])
      && a.body.authority.masterSha == r.body.authority.masterSha
      && (k > 0 ==> Verified(a) && GenerationOf(a) < GenerationOf(r))
      && (k == Hops(base, deltas) ==> (base.Some? || deltas != []) && a == Root(base, deltas))
    decreases k
  {
    hide DescendsFrom, Verified, GenerationOf, ParentOf, Root;
    if k == 0 {
      assert deltas[..|deltas|] == deltas;
      if Hops(base, deltas) == 0 {
        RootIsReached(files, r, base, deltas);
      }
    } else {
      DescentStep(files, r, base, deltas);
      var parent := ParentOf(files, r).value.1;
      var earlier := deltas[..|deltas| - 1];
      WalkVerifies(files, parent, base, earlier, k - 1);
      assert earlier[..|earlier| - (k - 1)] == deltas[..|deltas| - k];
      SameRoot(base, deltas);
    }
  }

  lemma SameRoot(base: Option<Remediation>, deltas: seq<Remediation>)
    requires Hops(base, deltas) > 0
    ensures var earlier := deltas[..|deltas| - 1];
      && (base.Some? || earlier != []) && Root(base, earlier) == Root(base, deltas)
      && Hops(base, earlier) == Hops(base, deltas) - 1
  {
  }

  lemma MasterIsShared(delta: Remediation, parent: Remediation, name: Name)
    requires MergeFailure(delta, parent).None?
    ensures NextGeneration(delta, parent, name).body.authority.masterSha == parent.body.authority.masterSha
    ensures GenerationOf(parent) < GenerationOf(NextGeneration(delta, parent, name))
    ensures var r := NextGeneration(delta, parent, name);
      DistinctIds(Rows(r.body.occurrences)) && DistinctIds(Rows(r.body.overrides))
  {
    MergedRows(delta, parent, name);
    RowsOfMerge(parent.body.occurrences, delta.body.occurrences);
    RowsOfMerge(parent.body.overrides, delta.body.overrides);
    IdCountDecidesDistinctness(Rows(parent.body.occurrences) + Rows(delta.body.occurrences));
    IdCountDecidesDistinctness(Rows(parent.body.overrides) + Rows(delta.body.overrides));
  }

  /**
   * In every run from a directory without a pointer, the active generation holds exactly the rows of the legacy base and
   * of the accepted deltas, in order, and from the second generation on no id repeats or is missing.
   */
  lemma RunHoldsAcceptedDeltas(files: Files, prefix: Prefix, events: seq<Event>)
    requires PointerFile !in files
    ensures var s := Run(Ledger(files, None, []), prefix, events);
      s.accepted != [] ==>
        && ResolveActive(s.files).Ok? && ResolveActive(s.files).value.Some?
        && LoadParent(s.files, ResolveActive(s.files).value.value).Ok?
        && var active := LoadParent(s.files, ResolveActive(s.files).value.value).value;
        && Gathered(s.base, s.accepted) == (Rows(active.body.occurrences), Rows(active.body.overrides))
        && (|s.accepted| >= 2 || s.base.Some? ==>
              DistinctIds(Rows(active.body.occurrences)) && DistinctIds(Rows(active.body.overrides)))
        && ((s.base.Some? ==> GenerationOf(s.base.value) >= 1) ==>
              GenerationOf(active) == BaseGeneration(s.base) + |s.accepted|)
  {
    hide *;
    RunKeepsSound(files, prefix, events);
    var s := Run(Ledger(files, None, []), prefix, events);
    if s.accepted != [] {
      ActiveHoldsAll(s);
    }
  }

  lemma ActiveHoldsAll(s: Ledger)
    requires Sound(s) && s.accepted != []
    ensures ResolveActive(s.files).Ok? && ResolveActive(s.files).value.Some?
    ensures LoadParent(s.files, ResolveActive(s.files).value.value).Ok?
    ensures var active := LoadParent(s.files, ResolveActive(s.files).value.value).value;
      && Gathered(s.base, s.accepted) == (Rows(active.body.occurrences), Rows(active.body.overrides))
      && (|s.accepted| >= 2 || s.base.Some? ==>
            DistinctIds(Rows(active.body.occurrences)) && DistinctIds(Rows(active.body.overrides)))
      && ((s.base.Some? ==> GenerationOf(s.base.value) >= 1) ==>
            GenerationOf(active) == BaseGeneration(s.base) + |s.accepted|)
  {
    hide ResolveActive, LoadParent, MergeFailure, NextGeneration, FirstGeneration, DistinctIds;
    var active := LoadParent(s.files, ResolveActive(s.files).value.value).value;
    DescendantHoldsAll(s.files, active, s.base, s.accepted);
    if s.base.Some? ==> GenerationOf(s.base.value) >= 1 {
      GenerationCounts(s.files, active, s.base, s.accepted);
    }
    if |s.accepted| >= 2 || s.base.Some? {
      var (name, parent) := ParentOf(s.files, active).value;
      MasterIsShared(s.accepted[|s.accepted| - 1], parent, name);
    }
  }

  /** In every run the walk from the active generation verifies and lowers the number at each hop, and ends at the root. */
  lemma RunWalksToTheRoot(files: Files, prefix: Prefix, events: seq<Event>, k: nat)
    requires PointerFile !in files
    requires var s := Run(Ledger(files, None, []), prefix, events);
      s.accepted != [] && k <= Hops(s.base, s.accepted)
    ensures var s := Run(Ledger(files, None, []), prefix, events);
      && ResolveActive(s.files).Ok? && ResolveActive(s.files).value.Some?
      && LoadParent(s.files, ResolveActive(s.files).value.value).Ok?
      && var active := LoadParent(s.files, ResolveActive(s.files).value.value).value;
      && Ancestor(s.files, active, k).Some?
      && var a := Ancestor(s.files, active, k).value;
      && Verified(a) && a.body.authority.masterSha == active.body.authority.masterSha
      && (k < Hops(s.base, s.accepted) ==>
            && Ancestor(s.files, active, k + 1).Some?
            && GenerationOf(Ancestor(s.files, active, k + 1).value) < GenerationOf(a))
      && Gathered(s.base, s.accepted[..|s.accepted| - k]) == (Rows(a.body.occurrences), Rows(a.body.overrides))
      && (k == Hops(s.base, s.accepted) ==>
            a == Root(s.base, s.accepted) && (s.base.None? ==> GenerationOf(a) == 1))
  {
    hide *;
    RunKeepsSound(files, prefix, events);
    var s := Run(Ledger(files, None, []), prefix, events);
    SoundWalk(s, k);
  }

  lemma SoundWalk(s: Ledger, k: nat)
    requires Sound(s) && s.accepted != [] && k <= Hops(s.base, s.accepted)
    ensures ResolveActive(s.files).Ok? && ResolveActive(s.files).value.Some?
    ensures LoadParent(s.files, ResolveActive(s.files).value.value).Ok?
    ensures var active := LoadParent(s.files, ResolveActive(s.files).value.value).value;
      && Ancestor(s.files, active, k).Some?
      && var a := Ancestor(s.files, active, k).value;
      && Verified(a) && a.body.authority.masterSha == active.body.authority.masterSha
      && (k < Hops(s.base, s.accepted) ==>
            && Ancestor(s.files, active, k + 1).Some?
            && GenerationOf(Ancestor(s.files, active, k + 1).value) < GenerationOf(a))
      && Gathered(s.base, s.accepted[..|s.accepted| - k]) == (Rows(a.body.occurrences), Rows(a.body.overrides))
      && (k == Hops(s.base, s.accepted) ==>
            a == Root(s.base, s.accepted) && (s.base.None? ==> GenerationOf(a) == 1))
  {
    hide *;
    SoundActive(s);
    var active := LoadParent(s.files, ResolveActive(s.files).value.value).value;
    WalkVerifies(s.files, active, s.base, s.accepted, k);
    AncestorZero(s.files, active);
    DescendantHoldsAll(s.files, Ancestor(s.files, active, k).value, s.base, s.accepted[..|s.accepted| - k]);
    RootNumber(s.base, s.accepted);
    if k < Hops(s.base, s.accepted) {
      HopLowers(s.files, active, s.base, s.accepted, k);
    }
  }

  /** The active generation of a sound ledger. */
  lemma SoundActive(s: Ledger)
    requires Sound(s) && s.accepted != []
    ensures ResolveActive(s.files).Ok? && ResolveActive(s.files).value.Some?
    ensures LoadParent(s.files, ResolveActive(s.files).value.value).Ok?
    ensures var active := LoadParent(s.files, ResolveActive(s.files).value.value).value;
      DescendsFrom(s.files, active, s.base, s.accepted) && Verified(active)
  {
    hide DescendsFrom, ResolveActive;
  }

  lemma RootNumber(base: Option<Remediation>, deltas: seq<Remediation>)
    requires deltas != []
    ensures base.None? ==> GenerationOf(Root(base, deltas)) == 1
  {
  }

  /** Every hop of the walk lowers the generation number. */
  lemma HopLowers(files: Files, r: Remediation, base: Option<Remediation>, deltas: seq<Remediation>, k: nat)
    requires DescendsFrom(files, r, base, deltas) && k < Hops(base, deltas)
    ensures Ancestor(files, r, k).Some? && Ancestor(files, r, k + 1).Some?
    ensures GenerationOf(Ancestor(files, r, k + 1).value) < GenerationOf(Ancestor(files, r, k).value)
  {
    hide *;
    WalkVerifies(files, r, base, deltas, k);
    HopsLeft(base, deltas, k);
    DescentStep(files, Ancestor(files, r, k).value, base, deltas[..|deltas| - k]);
    AncestorNext(files, r, k);
  }

  lemma HopsLeft(base: Option<Remediation>, deltas: seq<Remediation>, k: nat)
    requires k < Hops(base, deltas)
    ensures k <= |deltas| && Hops(base, deltas[..|deltas| - k]) == Hops(base, deltas) - k
  {
  }

  /** One more hop is the parent of where the walk stands. */
  lemma {:induction false} AncestorNext(files: Files, r: Remediation, k: nat)
    requires Ancestor(files, r, k).Some? && ParentOf(files, Ancestor(files, r, k).value).Some?
    ensures Ancestor(files, r, k + 1) == Some(ParentOf(files, Ancestor(files, r, k).value).value.1)
    decreases k
  {
    hide ParentOf;
    if k > 0 {
      AncestorNext(files, ParentOf(files, r).value.1, k - 1);
    } else {
      AncestorZero(files, r);
      AncestorZero(files, ParentOf(files, r).value.1);
    }
  }

  lemma AncestorZero(files: Files, r: Remediation)
    ensures Ancestor(files, r, 0) == Some(r)
  {
  }

  // ----- Consequences -----

  /** No delta that names an id already held is ever accepted on top of a generation that has it. */
  lemma HeldIdsAreRefused(delta: Remediation, parent: Remediation, i: nat, j: nat)
    requires i < |Rows(parent.body.occurrences)| && j < |Rows(delta.body.occurrences)|
    requires Rows(parent.body.occurrences)[i].Row? && Rows(delta.body.occurrences)[j].Row?
    requires Rows(parent.body.occurrences)[i].id == Rows(delta.body.occurrences)[j].id
    ensures MergeFailure(delta, parent).Some?
  {
    var held, added := Rows(parent.body.occurrences), Rows(delta.body.occurrences);
    RowsOfMerge(parent.body.occurrences, delta.body.occurrences);
    IdCountDecidesDistinctness(held + added);
    assert (held + added)[i] == held[i] && (held + added)[|held| + j] == added[j];
  }

  lemma DistinctIdsOfFront(a: seq<Entry>, b: seq<Entry>)
    ensures DistinctIds(a + b) ==> DistinctIds(a)
  {
    assert forall i :: 0 <= i < |a| ==> (a + b)[i] == a[i];
  }

  /** Some delta can be merged into a generation exactly when its own ids are distinct. */
  lemma WhenGenerationCanGrow(parent: Remediation)
    ensures (exists delta :: MergeFailure(delta, parent).None?)
      <==> DistinctIds(Rows(parent.body.occurrences)) && DistinctIds(Rows(parent.body.overrides))
  {
    var rows, others := Rows(parent.body.occurrences), Rows(parent.body.overrides);
    forall delta | MergeFailure(delta, parent).None?
      ensures DistinctIds(rows) && DistinctIds(others)
    {
      MergedIdsAreDistinct(parent.body.occurrences, delta.body.occurrences);
      MergedIdsAreDistinct(parent.body.overrides, delta.body.overrides);
    }
    if DistinctIds(rows) && DistinctIds(others) {
      var nothing := parent.(body := parent.body.(occurrences := [], overrides := []));
      RowsOfRows(parent.body.occurrences);
      RowsOfRows(parent.body.overrides);
      IdCountDecidesDistinctness(rows);
      IdCountDecidesDistinctness(others);
      assert rows + Rows([]) == rows && others + Rows([]) == others;
      assert MergeFailure(nothing, parent).None?;
    }
  }

  lemma MergedIdsAreDistinct(parent: seq<Entry>, delta: seq<Entry>)
    requires IdsAreSound(Rows(parent) + Rows(delta))
    ensures DistinctIds(Rows(parent))
  {
    RowsOfMerge(parent, delta);
    IdCountDecidesDistinctness(Rows(parent) + Rows(delta));
    DistinctIdsOfFront(Rows(parent), Rows(delta));
  }

  /** Nothing is active yet, and the names of the delta are free. */
  predicate Untouched(files: Files, prefix: Prefix, delta: Remediation) {
    && PointerFile !in files && LegacyFile !in files
    && GenerationFile(prefix(delta.body.proposalSha)) !in files && DeltaFile(prefix(delta.body.proposalSha)) !in files
  }

  /** The first activation publishes whatever rows the delta has. */
  lemma FirstIsPublished(files: Files, prefix: Prefix, delta: Remediation)
    requires Verified(delta) && DigestLength(delta.body.proposalSha) == 64 && Untouched(files, prefix, delta)
    ensures var o := Activate(files, prefix, delta, None);
      var name, after := GenerationFile(prefix(delta.body.proposalSha)), Applied(files, o.writes);
      && o.result == Ok((name, FirstGeneration(delta)))
      && ResolveActive(after) == Ok(Some(name)) && LoadParent(after, name) == Ok(FirstGeneration(delta))
  {
    var name, stored := GenerationFile(prefix(delta.body.proposalSha)), DeltaFile(prefix(delta.body.proposalSha));
    var first := FirstGeneration(delta);
    var writes := [Write(stored, RemediationDoc(delta))];
    assert writes[..0] == [];
    assert Applied(files, writes) == files[stored := RemediationDoc(delta)];
    var more := [Write(name, RemediationDoc(first)), Write(PointerFile, PointerTo(name, first))];
    assert more == [Write(name, RemediationDoc(first))] + [Write(PointerFile, PointerTo(name, first))];
    assert Activate(files, prefix, delta, None) == Outcome(writes + more, Ok((name, first)));
    CompletedIsActive(files, prefix, delta, None);
  }

  /**
   * The first generation is not checked for ids. It is activated in any case and carries the ids of its delta; when these
   * are not distinct, every later activation fails, or finds its delta already active.
   */
  lemma UncheckedFirstGenerationIsFinal(files: Files, prefix: Prefix, delta: Remediation, next: Remediation)
    requires Verified(delta) && DigestLength(delta.body.proposalSha) == 64 && Untouched(files, prefix, delta)
    requires !(DistinctIds(Rows(delta.body.occurrences)) && DistinctIds(Rows(delta.body.overrides)))
    ensures var o := Activate(files, prefix, delta, None);
      && o.result == Ok((GenerationFile(prefix(delta.body.proposalSha)), FirstGeneration(delta)))
      && var again := Activate(Applied(files, o.writes), prefix, next, None);
      && (again.result.Ok? ==> again.writes == [] && again.result == o.result)
      && forall write :: write in again.writes ==> write.name != PointerFile
  {
    FirstIsPublished(files, prefix, delta);
    var o := Activate(files, prefix, delta, None);
    var name, after := GenerationFile(prefix(delta.body.proposalSha)), Applied(files, o.writes);
    var first := FirstGeneration(delta);
    FirstRows(delta);
    WhenGenerationCanGrow(first);
    assert MergeFailure(next, first).Some?;
    hide Activate, Publish, MergeFailure, FirstGeneration;
    RefusedBy(after, prefix, next, name, first);
  }

  /** A refused merge may leave the delta behind, but no pointer. */
  lemma RefusedBy(files: Files, prefix: Prefix, delta: Remediation, name: Name, active: Remediation)
    requires ResolveActive(files) == Ok(Some(name)) && LoadParent(files, name) == Ok(active) && name.GenerationFile?
    requires MergeFailure(delta, active).Some?
    ensures var o := Activate(files, prefix, delta, None);
      && (o.result.Ok? ==> o.writes == [] && o.result == Ok((name, active)))
      && forall write :: write in o.writes ==> write.name != PointerFile
  {
    hide MergeFailure, Publish, ResolveActive;
    var stored := StoreOnce(files, DeltaFile(prefix(delta.body.proposalSha)), RemediationDoc(delta));
    if stored.Ok? {
      assert LoadParent(Applied(files, stored.value), name) == Ok(active) by {
        StoreKeepsParent(files, DeltaFile(prefix(delta.body.proposalSha)), RemediationDoc(delta), name);
      }
    }
  }

  // ----- When a delta is merged -----

  /** The names an activation on top of a parent writes are not in use, and differ from one another. */
  predicate NamesAreFree(files: Files, prefix: Prefix, delta: Remediation, name: Name, parent: Remediation) {
    && DeltaFile(prefix(delta.body.proposalSha)) !in files && GenerationFile(prefix(delta.body.proposalSha)) !in files
    && (name == LegacyFile ==>
         && prefix(parent.selfSha) != prefix(delta.body.proposalSha)
         && (GenerationFile(prefix(parent.selfSha)) in files ==> files[GenerationFile(prefix(parent.selfSha))] == RemediationDoc(parent)))
  }

  /** Every object of the two lists has an id, and no two of them have the same. */
  ghost predicate JointlyDistinct(a: seq<Entry>, b: seq<Entry>) { ObjectsAreDistinct(a + b) }

  ghost predicate ObjectsAreDistinct(entries: seq<Entry>) {
    && (forall i :: 0 <= i < |entries| && entries[i].Row? ==> entries[i].id != "")
    && (forall i, j :: 0 <= i < j < |entries| && entries[i].Row? && entries[j].Row? ==> entries[i].id != entries[j].id)
  }

  lemma {:induction false} RowsAreTheObjects(entries: seq<Entry>, e: Entry)
    ensures e in Rows(entries) <==> e in entries && e.Row?
  {
    if entries != [] {
      assert entries == [entries[0]] + entries[1..];
      RowsAreTheObjects(entries[1..], e);
    }
  }

  /** What is listed besides the objects has no part in the test. */
  lemma {:induction false} DistinctObjectsAreDistinctRows(entries: seq<Entry>)
    ensures ObjectsAreDistinct(entries) <==> DistinctIds(Rows(entries))
  {
    if entries != [] {
      var first, rest := entries[0], entries[1..];
      assert entries == [first] + rest;
      DistinctObjectsAreDistinctRows(rest);
      forall e ensures e in Rows(rest) <==> e in rest && e.Row? {
        RowsAreTheObjects(rest, e);
      }
      FirstIsDistinct(first, rest);
      if first.Row? {
        assert Rows(entries) == [first] + Rows(rest);
        FirstRowIsDistinct(first, Rows(rest));
      }
    }
  }

  lemma FirstIsDistinct(first: Entry, rest: seq<Entry>)
    ensures ObjectsAreDistinct([first] + rest) <==>
      ObjectsAreDistinct(rest) && (first.Row? ==> first.id != "" && forall e :: e in rest && e.Row? ==> e.id != first.id)
  {
    var all := [first] + rest;
    assert forall i :: 0 <= i < |rest| ==> rest[i] == all[i + 1];
    assert all[0] == first && forall i :: 0 < i < |all| ==> all[i] == rest[i - 1];
  }

  lemma FirstRowIsDistinct(first: Entry, rest: seq<Entry>)
    requires first.Row?
    ensures DistinctIds([first] + rest) <==> DistinctIds(rest) && first.id != "" && forall e :: e in rest && e.Row? ==> e.id != first.id
  {
    var all := [first] + rest;
    assert forall i :: 0 <= i < |rest| ==> rest[i] == all[i + 1];
    assert all[0] == first && forall i :: 0 < i < |all| ==> all[i] == rest[i - 1];
  }

  /** The generation that follows a parent: its rows and those of the delta, in order, one number up, and a reference back. */
  ghost predicate Follows(r: Remediation, delta: Remediation, parent: Remediation, parentName: Name) {
    && Verified(r) && r.body.proposalSha == delta.body.proposalSha
    && Rows(r.body.occurrences) == Rows(parent.body.occurrences) + Rows(delta.body.occurrences)
    && Rows(r.body.overrides) == Rows(parent.body.overrides) + Rows(delta.body.overrides)
    && r.body.generation == Some(GenerationOf(parent) + 1)
    && r.body.deltaCounts == Some(Counts(|Rows(delta.body.occurrences)|, |Rows(delta.body.overrides)|))
    && r.body.authority == delta.body.authority.(parent := Some(ParentRef(parentName, OfFile(RemediationDoc(parent)), parent.selfSha)))
    && r.body.others == delta.body.others
  }

  /**
   * On top of a verified parent, given or active, with free names, a verified delta of another proposal is merged exactly when both
   * name the same master, and the occurrence ids and the override ids of the two together are non-empty and pairwise
   * distinct. Then the new generation is active; otherwise the first of the three that fails is reported.
   */
  lemma WhenDeltaIsMerged(files: Files, prefix: Prefix, delta: Remediation, given: Option<Name>, name: Name, parent: Remediation)
    requires ParentName(files, given) == Ok(Some(name)) && LoadParent(files, name) == Ok(parent)
    requires Verified(delta) && DigestLength(delta.body.proposalSha) == 64 && delta.body.proposalSha != parent.body.proposalSha
    requires NamesAreFree(files, prefix, delta, name, parent)
    ensures var o := Activate(files, prefix, delta, given);
      var sameMaster := delta.body.authority.masterSha == parent.body.authority.masterSha;
      var distinct := JointlyDistinct(parent.body.occurrences, delta.body.occurrences);
      && (o.result.Ok? <==> sameMaster && distinct && JointlyDistinct(parent.body.overrides, delta.body.overrides))
      && (!sameMaster ==> o.result == Err(AnotherMaster))
      && (sameMaster && !distinct ==> o.result == Err(DuplicateOccurrences))
      && (sameMaster && distinct && o.result.Err? ==> o.result == Err(DuplicateOverrides))
      && (o.result.Ok? ==>
            var (published, r) := o.result.value;
            && published == GenerationFile(prefix(delta.body.proposalSha))
            && Follows(r, delta, parent, if name == LegacyFile then GenerationFile(prefix(parent.selfSha)) else name)
            && ResolveActive(Applied(files, o.writes)) == Ok(Some(published))
            && LoadParent(Applied(files, o.writes), published) == Ok(r))
  {
    MergeIsDecided(files, prefix, delta, given, name, parent);
    WhenMergeFails(delta, parent);
    MergedRows(delta, parent, SnapshotName(prefix, name, parent));
    hide Publish, MergeFailure, StoreAndBuild, ResolveActive, ParentName, LoadParent, JointlyDistinct;
    if MergeFailure(delta, parent).None? {
      CompletedIsActive(files, prefix, delta, given);
    }
  }

  /** The tests of a merge, read on the rows. */
  lemma WhenMergeFails(delta: Remediation, parent: Remediation)
    ensures var sameMaster := delta.body.authority.masterSha == parent.body.authority.masterSha;
      var distinct := JointlyDistinct(parent.body.occurrences, delta.body.occurrences);
      && (!sameMaster ==> MergeFailure(delta, parent) == Some(AnotherMaster))
      && (sameMaster && !distinct ==> MergeFailure(delta, parent) == Some(DuplicateOccurrences))
      && (sameMaster && distinct && !JointlyDistinct(parent.body.overrides, delta.body.overrides) ==>
            MergeFailure(delta, parent) == Some(DuplicateOverrides))
      && (sameMaster && distinct && JointlyDistinct(parent.body.overrides, delta.body.overrides) ==> MergeFailure(delta, parent).None?)
  {
    RowsOfMerge(parent.body.occurrences, delta.body.occurrences);
    RowsOfMerge(parent.body.overrides, delta.body.overrides);
    IdCountDecidesDistinctness(Rows(parent.body.occurrences) + Rows(delta.body.occurrences));
    IdCountDecidesDistinctness(Rows(parent.body.overrides) + Rows(delta.body.overrides));
    RowsOfSum(parent.body.occurrences, delta.body.occurrences);
    RowsOfSum(parent.body.overrides, delta.body.overrides);
    DistinctObjectsAreDistinctRows(parent.body.occurrences + delta.body.occurrences);
    DistinctObjectsAreDistinctRows(parent.body.overrides + delta.body.overrides);
    hide DistinctIds, IdsAreSound, ObjectsAreDistinct;
  }

  /** With free names only the tests of the merge can stop an activation. */
  lemma MergeIsDecided(files: Files, prefix: Prefix, delta: Remediation, given: Option<Name>, name: Name, parent: Remediation)
    requires ParentName(files, given) == Ok(Some(name)) && LoadParent(files, name) == Ok(parent)
    requires Verified(delta) && DigestLength(delta.body.proposalSha) == 64 && delta.body.proposalSha != parent.body.proposalSha
    requires NamesAreFree(files, prefix, delta, name, parent)
    ensures var o := Activate(files, prefix, delta, given);
      if MergeFailure(delta, parent).Some? then o.result == Err(MergeFailure(delta, parent).value)
      else o.writes != []
           && o.result == Ok((GenerationFile(prefix(delta.body.proposalSha)), NextGeneration(delta, parent, SnapshotName(prefix, name, parent))))
  {
    hide MergeFailure, ParentName, NextGeneration;
    var stored := DeltaFile(prefix(delta.body.proposalSha));
    var after := Applied(files, [Write(stored, RemediationDoc(delta))]);
    AppliedOne(files, Write(stored, RemediationDoc(delta)));
    StoreKeepsParent(files, stored, RemediationDoc(delta), name);
    FreeGenerationIsPublished(after, prefix, delta, name, parent);
  }

  lemma FreeGenerationIsPublished(files: Files, prefix: Prefix, delta: Remediation, name: Name, parent: Remediation)
    requires LoadParent(files, name) == Ok(parent) && GenerationFile(prefix(delta.body.proposalSha)) !in files && Verified(delta)
    requires name == LegacyFile ==>
      && prefix(parent.selfSha) != prefix(delta.body.proposalSha)
      && (GenerationFile(prefix(parent.selfSha)) in files ==> files[GenerationFile(prefix(parent.selfSha))] == RemediationDoc(parent))
    ensures var o := MergeAndPublish(files, prefix, delta, name);
      if MergeFailure(delta, parent).Some? then o.result == Err(MergeFailure(delta, parent).value)
      else o.result == Ok((GenerationFile(prefix(delta.body.proposalSha)), NextGeneration(delta, parent, SnapshotName(prefix, name, parent))))
  {
    hide MergeFailure, LoadParent, NextGeneration, Applied;
    AppliedOne(files, Write(GenerationFile(prefix(parent.selfSha)), RemediationDoc(parent)));
    NoWrites(files);
    NextIsVerified(delta, parent, SnapshotName(prefix, name, parent));
  }

  lemma AppliedOne(files: Files, write: Write)
    ensures Applied(files, [write]) == files[write.name := write.document]
  {
    assert [write][..|[write]| - 1] == [];
  }

  lemma NextIsVerified(delta: Remediation, parent: Remediation, name: Name)
    requires Verified(delta)
    ensures Verified(NextGeneration(delta, parent, name))
  {
  }

  // ----- When an activation is refused -----

  /** The self-hash is that of the content, and the content is approved. */
  predicate IsApproved(r: Remediation) { r.selfSha == OfBody(r.body) && r.body.status == "OCR_RESIDUAL_REMEDIATION_APPROVED" }

  predicate HasDigestForm(hash: Hash) { hash.Plain? ==> |hash.text| == 64 }

  /** A pointer document marked active whose self-hash is that of its content. */
  predicate IsPointer(document: Document) {
    document.PointerDoc? && document.selfSha == OfPointer(document.target) && document.target.status == "ACTIVE"
  }

  /** The target is there with the content the pointer recorded. */
  predicate IsCurrent(files: Files, target: Target) {
    target.name in files && target.fileSha == OfFile(files[target.name]) && HasDigestForm(target.remediationSha)
  }

  /** Which document is active, for any directory: without a pointer the legacy file, else a sound pointer's unaltered target. */
  lemma WhenPointerResolves(files: Files)
    ensures PointerFile !in files ==> ResolveActive(files) == Ok(if LegacyFile in files then Some(LegacyFile) else None)
    ensures PointerFile in files ==>
      && (ResolveActive(files) == Err(InvalidPointer) <==> !IsPointer(files[PointerFile]))
      && (ResolveActive(files) == Err(StalePointer) <==> IsPointer(files[PointerFile]) && !IsCurrent(files, files[PointerFile].target))
      && (ResolveActive(files).Ok? ==> ResolveActive(files) == Ok(Some(files[PointerFile].target.name)))
  {
  }

  /** The document named is a readable remediation, approved under its own hash. */
  predicate IsParent(files: Files, name: Name) {
    name in files && files[name].RemediationDoc? && IsApproved(files[name].remediation)
  }

  /** Where an activation looks for its parent; an unsound or stale pointer is an error. */
  predicate StartsFrom(files: Files, given: Option<Name>, name: Option<Name>) {
    if given.Some? then name == given
    else if PointerFile !in files then name == if LegacyFile in files then Some(LegacyFile) else None
    else IsPointer(files[PointerFile]) && IsCurrent(files, files[PointerFile].target) && name == Some(files[PointerFile].target.name)
  }

  /**
   * An unapproved delta, a malformed proposal digest, an unsound pointer and an unapproved parent are each refused, and then
   * nothing is written. A delta whose proposal is the parent's own is found active.
   */
  lemma WhenActivationIsRefused(files: Files, prefix: Prefix, delta: Remediation, given: Option<Name>, name: Option<Name>)
    ensures var o := Activate(files, prefix, delta, given);
      && (o.result == Err(InvalidDelta) <==> !IsApproved(delta))
      && (o.result == Err(InvalidProposalSha) <==> IsApproved(delta) && !HasDigestForm(delta.body.proposalSha))
      && (IsApproved(delta) && HasDigestForm(delta.body.proposalSha) ==>
            && (o.result in {Err(InvalidPointer), Err(StalePointer)} <==> forall n :: !StartsFrom(files, given, n))
            && (StartsFrom(files, given, name) ==>
                  && (o.result in {Err(UnreadableParent), Err(InvalidParent)} <==> name.Some? && !IsParent(files, name.value))
                  && (name.Some? && IsParent(files, name.value) && files[name.value].remediation.body.proposalSha == delta.body.proposalSha ==>
                        o == Outcome([], Ok((name.value, files[name.value].remediation))))))
      && (o.result.Err? && IsRefusal(o.result.error) ==> o.writes == [])
  {
    WhenItStarts(files, given);
    hide StoreAndBuild, ParentName, StartsFrom;
    var start := ParentName(files, given);
    if start.Ok? && (start.value.None? || LoadParent(files, start.value.value).Ok?) {
      BuildEnds(files, prefix, delta, start.value);
    }
  }

  lemma WhenItStarts(files: Files, given: Option<Name>)
    ensures forall n :: StartsFrom(files, given, n) <==> ParentName(files, given) == Ok(n)
    ensures var start := ParentName(files, given);
      start.Err? ==> start.error.InvalidPointer? || start.error.StalePointer?
  {
    WhenPointerResolves(files);
  }

  /** The errors of the checks before anything is stored. */
  predicate IsRefusal(e: Failure) {
    e.InvalidDelta? || e.InvalidProposalSha? || e.InvalidPointer? || e.StalePointer? || e.UnreadableParent? || e.InvalidParent?
  }

  lemma BuildEnds(files: Files, prefix: Prefix, delta: Remediation, name: Option<Name>)
    requires name.None? || LoadParent(files, name.value).Ok?
    ensures var o := StoreAndBuild(files, prefix, delta, name);
      o.result.Err? ==> !IsRefusal(o.result.error)
  {
    hide NextGeneration, FirstGeneration, Applied, Verified;
    var stored := DeltaFile(prefix(delta.body.proposalSha));
    if name.Some? && StoreOnce(files, stored, RemediationDoc(delta)).Ok? {
      StoreKeepsParent(files, stored, RemediationDoc(delta), name.value);
    }
  }
}
