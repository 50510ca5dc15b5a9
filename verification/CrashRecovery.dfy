/** Stopping an activation after any of its writes, and running it again. */
module CrashRecovery {
  import opened Prelude
  import opened Remediation
  import opened Activation

  /** What is on disk when an attempt stops after `k` of its writes. */
  function Stopped(files: Files, o: Outcome, k: nat): Files
    requires k <= |o.writes|
  {
    Applied(files, o.writes[..k])
  }

  /** The second attempt ends with the files and the result of an uninterrupted first one. */
  ghost predicate Recovers(files: Files, o: Outcome, k: nat, again: Outcome)
    requires k <= |o.writes|
  {
    Applied(Stopped(files, o, k), again.writes) == Applied(files, o.writes) && again.result == o.result
  }

  lemma NothingWritten(files: Files, o: Outcome)
    ensures Stopped(files, o, 0) == files && Recovers(files, o, 0, o)
  {
  }

  lemma AfterFirstStage(files: Files, writes: seq<Write>, rest: Outcome, k: nat, again: Outcome)
    requires |writes| <= k <= |writes| + |rest.writes|
    requires Recovers(Applied(files, writes), rest, k - |writes|, again)
    ensures Stopped(files, Then(writes, rest), k) == Stopped(Applied(files, writes), rest, k - |writes|)
    ensures Recovers(files, Then(writes, rest), k, Then([], again))
  {
    hide Applied;
    assert (writes + rest.writes)[..k] == writes + rest.writes[..k - |writes|];
    AppliedSum(files, writes, rest.writes[..k - |writes|]);
    AppliedSum(files, writes, rest.writes);
    assert [] + again.writes == again.writes;
  }

  lemma PointerAgain(files: Files, first: Document, second: Document)
    ensures Applied(Applied(files, [Write(PointerFile, first)]), [Write(PointerFile, second)]) == files[PointerFile := second]
    ensures Applied(files, [Write(PointerFile, second)]) == files[PointerFile := second]
  {
  }

  lemma PublishRecovers(files: Files, prefix: Prefix, delta: Remediation, cumulative: Remediation, k: nat)
    requires k <= |Publish(files, prefix, delta, cumulative).writes|
    ensures var o := Publish(files, prefix, delta, cumulative);
      Recovers(files, o, k, Publish(Stopped(files, o, k), prefix, delta, cumulative))
  {
    hide Applied;
    var name := GenerationFile(prefix(delta.body.proposalSha));
    var o := Publish(files, prefix, delta, cumulative);
    if k == 0 {
      NothingWritten(files, o);
    } else {
      var stored := StoreOnce(files, name, RemediationDoc(cumulative)).value;
      var pointer := Write(PointerFile, PointerTo(name, cumulative));
      var after := Applied(files, stored);
      StoredIsThere(files, name, RemediationDoc(cumulative));
      PointerAgain(after, pointer.document, pointer.document);
      AppliedSum(files, stored, [pointer]);
      if k == |stored| {
        assert o.writes[..k] == stored;
      } else {
        assert o.writes[..k] == stored + [pointer];
      }
      assert [] + [pointer] == [pointer];
    }
  }

  lemma StoredIsThere(files: Files, name: Name, document: Document)
    requires StoreOnce(files, name, document).Ok?
    ensures var after := Applied(files, StoreOnce(files, name, document).value);
      name in after && after[name] == document
  {
  }

  /** A document survives the writes of any later stage. */
  lemma SurvivesStop(files: Files, o: Outcome, k: nat, name: Name)
    requires WritesOnce(files, o.writes) && k <= |o.writes| && name in files && name != PointerFile
    ensures name in Stopped(files, o, k) && Stopped(files, o, k)[name] == files[name]
  {
    SafeWritesExtend(files, o.writes, k);
  }

  lemma MergeRecovers(files: Files, prefix: Prefix, delta: Remediation, parentName: Name, k: nat)
    requires parentName != PointerFile
    requires k <= |MergeAndPublish(files, prefix, delta, parentName).writes|
    ensures var o := MergeAndPublish(files, prefix, delta, parentName);
      Recovers(files, o, k, MergeAndPublish(Stopped(files, o, k), prefix, delta, parentName))
  {
    hide Applied, Publish, NextGeneration, MergeFailure, WritesOnce, Stopped, Recovers;
    var o := MergeAndPublish(files, prefix, delta, parentName);
    NothingWritten(files, o);
    if k > 0 {
      MergeWritesOnce(files, prefix, delta, parentName);
      SurvivesStop(files, o, k, parentName);
      var parent := LoadParent(files, parentName).value;
      var copied := Snapshot(files, prefix, parentName, parent).value;
      MergeStage(files, prefix, delta, parentName, parent, copied, k);
    }
  }

  /** The stage of a merge that follows the snapshot. */
  function Merged(files: Files, prefix: Prefix, delta: Remediation, parentName: Name, parent: Remediation): Outcome {
    var failure := MergeFailure(delta, parent);
    if failure.Some? then Outcome([], Err(failure.value))
    else Publish(files, prefix, delta, NextGeneration(delta, parent, SnapshotName(prefix, parentName, parent)))
  }

  lemma MergeStage(files: Files, prefix: Prefix, delta: Remediation, parentName: Name, parent: Remediation, copied: seq<Write>, k: nat)
    requires parentName != PointerFile && LoadParent(files, parentName) == Ok(parent)
    requires Snapshot(files, prefix, parentName, parent) == Ok(copied)
    requires 0 < k <= |MergeAndPublish(files, prefix, delta, parentName).writes|
    requires var o := MergeAndPublish(files, prefix, delta, parentName);
      LoadParent(Stopped(files, o, k), parentName) == Ok(parent)
    ensures var o := MergeAndPublish(files, prefix, delta, parentName);
      Recovers(files, o, k, MergeAndPublish(Stopped(files, o, k), prefix, delta, parentName))
  {
    hide Applied, Publish, NextGeneration, MergeFailure, WritesOnce, Stopped, Recovers, LoadParent;
    var o := MergeAndPublish(files, prefix, delta, parentName);
    var after := Applied(files, copied);
    var rest := Merged(after, prefix, delta, parentName, parent);
    assert o == Then(copied, rest);
    assert |copied| <= 1;
    var left := k - |copied|;
    var mid := Stopped(after, rest, left);
    MergedRecovers(after, prefix, delta, parentName, parent, left);
    AfterFirstStage(files, copied, rest, k, Merged(mid, prefix, delta, parentName, parent));
    SnapshotAgain(files, prefix, parentName, parent, rest, left);
    NoWrites(mid);
    assert MergeAndPublish(mid, prefix, delta, parentName) == Then([], Merged(mid, prefix, delta, parentName, parent));
  }

  lemma MergedRecovers(files: Files, prefix: Prefix, delta: Remediation, parentName: Name, parent: Remediation, k: nat)
    requires k <= |Merged(files, prefix, delta, parentName, parent).writes|
    ensures var o := Merged(files, prefix, delta, parentName, parent);
      Recovers(files, o, k, Merged(Stopped(files, o, k), prefix, delta, parentName, parent)) && WritesOnce(files, o.writes)
  {
    hide Applied, Publish, NextGeneration, MergeFailure, WritesOnce, Stopped, Recovers;
    NoWriteIsSafe(files);
    NothingWritten(files, Merged(files, prefix, delta, parentName, parent));
    if MergeFailure(delta, parent).None? {
      var cumulative := NextGeneration(delta, parent, SnapshotName(prefix, parentName, parent));
      PublishRecovers(files, prefix, delta, cumulative, k);
      PublishWritesOnce(files, prefix, delta, cumulative);
    }
  }

  lemma SnapshotAgain(files: Files, prefix: Prefix, parentName: Name, parent: Remediation, rest: Outcome, k: nat)
    requires Snapshot(files, prefix, parentName, parent).Ok?
    requires var after := Applied(files, Snapshot(files, prefix, parentName, parent).value);
      WritesOnce(after, rest.writes) && k <= |rest.writes|
    ensures var after := Applied(files, Snapshot(files, prefix, parentName, parent).value);
      Snapshot(Stopped(after, rest, k), prefix, parentName, parent) == Ok([])
  {
    hide Applied, WritesOnce, Stopped;
    if parentName == LegacyFile {
      var name := SnapshotName(prefix, parentName, parent);
      StoredIsThere(files, name, RemediationDoc(parent));
      var after := Applied(files, Snapshot(files, prefix, parentName, parent).value);
      SurvivesStop(after, rest, k, name);
    }
  }

  lemma BuildRecovers(files: Files, prefix: Prefix, delta: Remediation, parentName: Option<Name>, k: nat)
    requires parentName != Some(PointerFile)
    requires k <= |Build(files, prefix, delta, parentName).writes|
    ensures var o := Build(files, prefix, delta, parentName);
      Recovers(files, o, k, Build(Stopped(files, o, k), prefix, delta, parentName)) && WritesOnce(files, o.writes)
  {
    hide Applied, Publish, MergeAndPublish, WritesOnce, Stopped, Recovers;
    if parentName.None? {
      PublishRecovers(files, prefix, delta, FirstGeneration(delta), k);
      PublishWritesOnce(files, prefix, delta, FirstGeneration(delta));
    } else {
      MergeRecovers(files, prefix, delta, parentName.value, k);
      MergeWritesOnce(files, prefix, delta, parentName.value);
    }
  }

  lemma StoreAndBuildRecovers(files: Files, prefix: Prefix, delta: Remediation, parentName: Option<Name>, k: nat)
    requires parentName != Some(PointerFile)
    requires k <= |StoreAndBuild(files, prefix, delta, parentName).writes|
    ensures var o := StoreAndBuild(files, prefix, delta, parentName);
      Recovers(files, o, k, StoreAndBuild(Stopped(files, o, k), prefix, delta, parentName))
  {
    hide Applied, Build, WritesOnce, Stopped, Recovers;
    var o := StoreAndBuild(files, prefix, delta, parentName);
    NothingWritten(files, o);
    if k > 0 {
      var name := DeltaFile(prefix(delta.body.proposalSha));
      var stored := StoreOnce(files, name, RemediationDoc(delta)).value;
      var after := Applied(files, stored);
      var rest := Build(after, prefix, delta, parentName);
      BuildRecovers(after, prefix, delta, parentName, k - |stored|);
      var mid := Stopped(after, rest, k - |stored|);
      AfterFirstStage(files, stored, rest, k, Build(mid, prefix, delta, parentName));
      StoredIsThere(files, name, RemediationDoc(delta));
      SurvivesStop(after, rest, k - |stored|, name);
      NoWrites(mid);
    }
  }

  /** A failed attempt never touches the pointer; a successful one that writes anything ends by pointing at its result. */
  ghost predicate EndsByPointing(files: Files, delta: Remediation, o: Outcome) {
    && (o.result.Err? ==> forall i :: 0 <= i < |o.writes| ==> o.writes[i].name != PointerFile)
    && (o.result.Ok? && o.writes != [] ==>
          var (name, r) := o.result.value;
          && name.GenerationFile? && Verified(r) && r.body.proposalSha == delta.body.proposalSha
          && Points(files, o.writes, name, r))
  }

  ghost predicate Points(files: Files, writes: seq<Write>, name: Name, r: Remediation) {
    var after := Applied(files, writes);
    && PointerFile in after && after[PointerFile] == PointerTo(name, r)
    && name in after && after[name] == RemediationDoc(r)
  }

  lemma PublishEnds(files: Files, prefix: Prefix, delta: Remediation, cumulative: Remediation)
    requires cumulative.body.proposalSha == delta.body.proposalSha
    ensures EndsByPointing(files, delta, Publish(files, prefix, delta, cumulative))
    ensures var o := Publish(files, prefix, delta, cumulative); o.result.Ok? ==> o.writes != []
  {
    hide Applied;
    var name := GenerationFile(prefix(delta.body.proposalSha));
    var o := Publish(files, prefix, delta, cumulative);
    if o.result.Ok? {
      var stored := StoreOnce(files, name, RemediationDoc(cumulative)).value;
      var pointer := PointerTo(name, cumulative);
      StoredIsThere(files, name, RemediationDoc(cumulative));
      AppliedSum(files, stored, [Write(PointerFile, pointer)]);
      PointerAgain(Applied(files, stored), pointer, pointer);
    }
  }

  lemma StageEnds(files: Files, delta: Remediation, writes: seq<Write>, rest: Outcome)
    requires EndsByPointing(Applied(files, writes), delta, rest) && (rest.result.Ok? ==> rest.writes != [])
    requires forall i :: 0 <= i < |writes| ==> writes[i].name != PointerFile
    ensures EndsByPointing(files, delta, Then(writes, rest))
  {
    hide Applied;
    AppliedSum(files, writes, rest.writes);
  }

  lemma MergeEnds(files: Files, prefix: Prefix, delta: Remediation, parentName: Name)
    ensures EndsByPointing(files, delta, MergeAndPublish(files, prefix, delta, parentName))
    ensures var o := MergeAndPublish(files, prefix, delta, parentName); o.result.Ok? ==> o.writes != []
  {
  }

  lemma StoreAndBuildEnds(files: Files, prefix: Prefix, delta: Remediation, parentName: Option<Name>)
    ensures EndsByPointing(files, delta, StoreAndBuild(files, prefix, delta, parentName))
    ensures var o := StoreAndBuild(files, prefix, delta, parentName); o.result.Ok? ==> o.writes != []
  {
    hide Applied, Publish, MergeAndPublish, Points;
    var name := DeltaFile(prefix(delta.body.proposalSha));
    if StoreOnce(files, name, RemediationDoc(delta)).Ok? {
      var stored := StoreOnce(files, name, RemediationDoc(delta)).value;
      var after := Applied(files, stored);
      if parentName.None? {
        PublishEnds(after, prefix, delta, FirstGeneration(delta));
      } else {
        MergeEnds(after, prefix, delta, parentName.value);
      }
      StageEnds(files, delta, stored, Build(after, prefix, delta, parentName));
    }
  }

  lemma ActivationEnds(files: Files, prefix: Prefix, delta: Remediation, given: Option<Name>)
    ensures EndsByPointing(files, delta, Activate(files, prefix, delta, given))
  {
    hide StoreAndBuild, Points;
    StoreAndBuildEnds(files, prefix, delta, None);
    var parentName := ParentName(files, given);
    if parentName.Ok? {
      StoreAndBuildEnds(files, prefix, delta, parentName.value);
    }
  }

  /** Stopped before its pointer write, or failing on its own, an attempt leaves the old authority active. */
  lemma InterruptedKeepsActive(files: Files, o: Outcome, k: nat, delta: Remediation)
    requires k <= |o.writes| && WritesOnce(files, o.writes) && EndsByPointing(files, delta, o)
    requires k < |o.writes| || o.result.Err?
    requires ResolveActive(files).Ok?
    ensures ResolveActive(Stopped(files, o, k)) == ResolveActive(files)
    ensures match ResolveActive(files).value
      case Some(name) => name in files && name in Stopped(files, o, k) && Stopped(files, o, k)[name] == files[name]
      case None => true
  {
    PointerKept(files, o, k, delta);
    hide WritesOnce, Points, Stopped;
  }

  lemma {:induction false} PointerKept(files: Files, o: Outcome, k: nat, delta: Remediation)
    requires k <= |o.writes| && WritesOnce(files, o.writes) && EndsByPointing(files, delta, o)
    requires k < |o.writes| || o.result.Err?
    ensures var after := Stopped(files, o, k);
      && Extends(files, after)
      && (LegacyFile in after <==> LegacyFile in files)
      && (PointerFile in after <==> PointerFile in files)
      && (PointerFile in files ==> after[PointerFile] == files[PointerFile])
  {
    hide Points;
    if k < |o.writes| {
      SafeWritesExtend(files, o.writes, k);
    } else if k > 0 {
      SafeWritesExtend(files, o.writes, k);
      SafeWritesExtend(files, o.writes, k - 1);
      assert o.writes[..k][..k - 1] == o.writes[..k - 1];
    }
  }

  lemma LoadParentKept(files: Files, o: Outcome, k: nat, name: Name)
    requires WritesOnce(files, o.writes) && k <= |o.writes| && name != PointerFile
    requires LoadParent(files, name).Ok?
    ensures LoadParent(Stopped(files, o, k), name) == LoadParent(files, name)
  {
    hide WritesOnce, Stopped;
    SurvivesStop(files, o, k, name);
  }

  lemma CompletedIsActive(files: Files, prefix: Prefix, delta: Remediation, given: Option<Name>)
    requires var o := Activate(files, prefix, delta, given); o.result.Ok? && o.writes != []
    ensures var o := Activate(files, prefix, delta, given);
      var after := Applied(files, o.writes);
      && ResolveActive(after) == Ok(Some(o.result.value.0))
      && LoadParent(after, o.result.value.0) == Ok(o.result.value.1)
      && o.result.value.1.body.proposalSha == delta.body.proposalSha
  {
    ActivationEnds(files, prefix, delta, given);
    hide Activate, Applied;
    var o := Activate(files, prefix, delta, given);
    var (name, r) := o.result.value;
    var after := Applied(files, o.writes);
    PointerRoundTrip(after, name, r);
    assert after[PointerFile := PointerTo(name, r)] == after;
  }

  lemma AttemptRecovers(files: Files, prefix: Prefix, delta: Remediation, given: Option<Name>, parentName: Option<Name>, k: nat)
    requires var o := Activate(files, prefix, delta, given);
      && 0 < k <= |o.writes| && parentName != Some(PointerFile)
      && ParentName(files, given) == Ok(parentName) && ParentName(Stopped(files, o, k), given) == Ok(parentName)
    ensures var o := Activate(files, prefix, delta, given);
      Recovers(files, o, k, Activate(Stopped(files, o, k), prefix, delta, given))
  {
    hide StoreAndBuild, Stopped, WritesOnce, Recovers, ParentName, LoadParent;
    var o := Activate(files, prefix, delta, given);
    ActivationWritesOnce(files, prefix, delta, given);
    StoreAndBuildRecovers(files, prefix, delta, parentName, k);
    if parentName.Some? {
      LoadParentKept(files, o, k, parentName.value);
    }
  }

  lemma ThePointerIsNoParent(files: Files)
    ensures ResolveActive(files) == Ok(Some(PointerFile)) ==> LoadParent(files, PointerFile).Err?
  {
  }

  /** Once completed, the same activation is a no-op that returns the active generation. */
  lemma CompletedIsIdempotent(files: Files, prefix: Prefix, delta: Remediation, given: Option<Name>)
    requires var o := Activate(files, prefix, delta, given); o.result.Ok? && o.writes != []
    ensures var o := Activate(files, prefix, delta, given);
      Activate(Applied(files, o.writes), prefix, delta, None) == Outcome([], o.result)
  {
    CompletedIsActive(files, prefix, delta, given);
    hide StoreAndBuild, ResolveActive, LoadParent;
  }

  /**
   * Crash recovery. Whatever prefix of its writes reached the disk, repeating the activation ends with the same files and
   * the same result as an uninterrupted run.
   */
  lemma ActivationRecovers(files: Files, prefix: Prefix, delta: Remediation, given: Option<Name>, k: nat)
    requires given != Some(PointerFile) && k <= |Activate(files, prefix, delta, given).writes|
    ensures var o := Activate(files, prefix, delta, given);
      Recovers(files, o, k, Activate(Stopped(files, o, k), prefix, delta, given))
  {
    var o := Activate(files, prefix, delta, given);
    NothingWritten(files, o);
    if k > 0 {
      ActivationWritesOnce(files, prefix, delta, given);
      ActivationEnds(files, prefix, delta, given);
      if given.Some? {
        AttemptRecovers(files, prefix, delta, given, given, k);
      } else if k < |o.writes| || o.result.Err? {
        InterruptedKeepsActive(files, o, k, delta);
        ThePointerIsNoParent(files);
        AttemptRecovers(files, prefix, delta, given, ResolveActive(files).value, k);
      } else {
        assert o.writes[..k] == o.writes;
        CompletedIsIdempotent(files, prefix, delta, given);
        NoWrites(Stopped(files, o, k));
      }
    }
  }

  /** Until the pointer write lands, the generation that was active stays active, with the same content. */
  lemma CrashKeepsOldGeneration(files: Files, prefix: Prefix, delta: Remediation, given: Option<Name>, k: nat)
    requires var o := Activate(files, prefix, delta, given); k <= |o.writes| && (k < |o.writes| || o.result.Err?)
    requires given.None? || ResolveActive(files).Ok?
    ensures var mid := Stopped(files, Activate(files, prefix, delta, given), k);
      && ResolveActive(mid) == ResolveActive(files)
      && match ResolveActive(files) {
           case Ok(Some(name)) => name in files && name in mid && mid[name] == files[name]
           case _ => true
         }
  {
    var o := Activate(files, prefix, delta, given);
    NothingWritten(files, o);
    if ResolveActive(files).Ok? {
      ActivationWritesOnce(files, prefix, delta, given);
      ActivationEnds(files, prefix, delta, given);
      hide Activate, ResolveActive;
      InterruptedKeepsActive(files, o, k, delta);
    }
  }
}
