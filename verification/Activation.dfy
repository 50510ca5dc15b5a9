/** Activating an approved delta: what is written, in which order, and what a crash or a second attempt leaves behind. */
module Activation {
  import opened Prelude
  import opened Remediation

  datatype Write = Write(name: Name, document: Document)

  /** The writes an attempt makes, in order, and how it ends. */
  datatype Outcome = Outcome(writes: seq<Write>, result: Result<(Name, Remediation), Failure>)

  /** The first twelve digits of a digest; nothing is assumed about collisions. */
  type Prefix = Hash -> string

  function Applied(files: Files, writes: seq<Write>): Files {
    if writes == [] then files
    else
      var last := writes[|writes| - 1];
      Applied(files, writes[..|writes| - 1])[last.name := last.document]
  }

  function Then(writes: seq<Write>, rest: Outcome): Outcome { rest.(writes := writes + rest.writes) }

  /** An immutable file is written once; a file that already holds the same document is kept. */
  function StoreOnce(files: Files, name: Name, document: Document): Result<seq<Write>, Failure> {
    if name !in files then Ok([Write(name, document)])
    else if files[name] == document then Ok([])
    else Err(Conflict(name))
  }

  function LoadParent(files: Files, name: Name): Result<Remediation, Failure> {
    if name !in files || files[name].Malformed? then Err(UnreadableParent)
    else if !files[name].RemediationDoc? || !Verified(files[name].remediation) then Err(InvalidParent)
    else Ok(files[name].remediation)
  }

  /** The parent an attempt starts from: the given one, or the active one. */
  function ParentName(files: Files, given: Option<Name>): Result<Option<Name>, Failure> {
    if given.Some? then Ok(given) else ResolveActive(files)
  }

  function Publish(files: Files, prefix: Prefix, delta: Remediation, cumulative: Remediation): Outcome {
    var name := GenerationFile(prefix(delta.body.proposalSha));
    if !Verified(cumulative) then Outcome([], Err(InvalidCumulative))
    else
      match StoreOnce(files, name, RemediationDoc(cumulative))
      case Err(e) => Outcome([], Err(e))
      case Ok(stored) => Outcome(stored + [Write(PointerFile, PointerTo(name, cumulative))], Ok((name, cumulative)))
  }

  /** The mutable legacy file is copied before it becomes a parent; any other parent stays where it is. */
  function SnapshotName(prefix: Prefix, name: Name, parent: Remediation): Name {
    if name == LegacyFile then GenerationFile(prefix(parent.selfSha)) else name
  }

  function Snapshot(files: Files, prefix: Prefix, name: Name, parent: Remediation): Result<seq<Write>, Failure> {
    if name == LegacyFile then StoreOnce(files, SnapshotName(prefix, name, parent), RemediationDoc(parent)) else Ok([])
  }

  function MergeAndPublish(files: Files, prefix: Prefix, delta: Remediation, parentName: Name): Outcome {
    match LoadParent(files, parentName)
    case Err(e) => Outcome([], Err(e))
    case Ok(parent) =>
      match Snapshot(files, prefix, parentName, parent)
      case Err(e) => Outcome([], Err(e))
      case Ok(copied) =>
        var failure := MergeFailure(delta, parent);
        Then(copied,
             if failure.Some? then Outcome([], Err(failure.value))
             else Publish(Applied(files, copied), prefix, delta,
                          NextGeneration(delta, parent, SnapshotName(prefix, parentName, parent))))
  }

  function Build(files: Files, prefix: Prefix, delta: Remediation, parentName: Option<Name>): Outcome {
    if parentName.None? then Publish(files, prefix, delta, FirstGeneration(delta))
    else MergeAndPublish(files, prefix, delta, parentName.value)
  }

  function StoreAndBuild(files: Files, prefix: Prefix, delta: Remediation, parentName: Option<Name>): Outcome {
    match StoreOnce(files, DeltaFile(prefix(delta.body.proposalSha)), RemediationDoc(delta))
    case Err(e) => Outcome([], Err(e))
    case Ok(stored) => Then(stored, Build(Applied(files, stored), prefix, delta, parentName))
  }

  function Activate(files: Files, prefix: Prefix, delta: Remediation, given: Option<Name>): Outcome {
    if !Verified(delta) then Outcome([], Err(InvalidDelta))
    else if DigestLength(delta.body.proposalSha) != 64 then Outcome([], Err(InvalidProposalSha))
    else
      match ParentName(files, given)
      case Err(e) => Outcome([], Err(e))
      case Ok(None) => StoreAndBuild(files, prefix, delta, None)
      case Ok(Some(name)) =>
        match LoadParent(files, name)
        case Err(e) => Outcome([], Err(e))
        case Ok(parent) =>
          if parent.body.proposalSha == delta.body.proposalSha then Outcome([], Ok((name, parent)))
          else StoreAndBuild(files, prefix, delta, Some(name))
  }

  // ----- The artifact directory -----

  class ArtifactRoot {
    var files: Files
    const prefix: Prefix
    ghost var log: seq<Write>

    constructor (files: Files, prefix: Prefix)
      ensures this.files == files && this.prefix == prefix && log == []
    {
      this.files, this.prefix, this.log := files, prefix, [];
    }

    method WriteJson(name: Name, document: Document)
      modifies this
      ensures log == old(log) + [Write(name, document)]
      ensures files == old(files)[name := document]
    {
      files := files[name := document];
      log := log + [Write(name, document)];
    }

    method StoreImmutable(name: Name, document: Document) returns (r: Result<(), Failure>)
      modifies this
      ensures match StoreOnce(old(files), name, document)
        case Ok(writes) => r == Ok(()) && log == old(log) + writes && files == Applied(old(files), writes)
        case Err(e) => r == Err(e) && log == old(log) && files == old(files)
    {
      if name in files {
        return if files[name] != document then Err(Conflict(name)) else Ok(());
      }
      WriteJson(name, document);
      assert [Write(name, document)][..0] == [];
      r := Ok(());
    }

    method PublishGeneration(delta: Remediation, cumulative: Remediation) returns (r: Result<(Name, Remediation), Failure>)
      modifies this
      ensures var o := Publish(old(files), prefix, delta, cumulative);
        r == o.result && log == old(log) + o.writes && files == Applied(old(files), o.writes)
    {
      if !Verified(cumulative) {
        return Err(InvalidCumulative);
      }
      var name := GenerationFile(prefix(delta.body.proposalSha));
      var stored := StoreImmutable(name, RemediationDoc(cumulative));
      if stored.Err? {
        return Err(stored.error);
      }
      ghost var writes := StoreOnce(old(files), name, RemediationDoc(cumulative)).value;
      WriteJson(PointerFile, PointerTo(name, cumulative));
      AppliedSum(old(files), writes, [Write(PointerFile, PointerTo(name, cumulative))]);
      r := Ok((name, cumulative));
    }

    method SnapshotParent(parentName: Name, parent: Remediation) returns (r: Result<Name, Failure>)
      modifies this
      ensures match Snapshot(old(files), prefix, parentName, parent)
        case Ok(writes) =>
          r == Ok(SnapshotName(prefix, parentName, parent)) && log == old(log) + writes && files == Applied(old(files), writes)
        case Err(e) => r == Err(e) && log == old(log) && files == old(files)
    {
      hide StoreOnce;
      if parentName != LegacyFile {
        return Ok(parentName);
      }
      var name := GenerationFile(prefix(parent.selfSha));
      var copied := StoreImmutable(name, RemediationDoc(parent));
      r := if copied.Err? then Err(copied.error) else Ok(name);
    }

    method MergeGeneration(delta: Remediation, parentName: Name) returns (r: Result<(Name, Remediation), Failure>)
      modifies this
      ensures var o := MergeAndPublish(old(files), prefix, delta, parentName);
        r == o.result && log == old(log) + o.writes && files == Applied(old(files), o.writes)
    {
      hide Publish, NextGeneration, MergeFailure, Snapshot, SnapshotName, LoadParent, Applied;
      var loaded := LoadParent(files, parentName);
      if loaded.Err? {
        NoWrites(files);
        return Err(loaded.error);
      }
      var parent := loaded.value;
      var snapshot := SnapshotParent(parentName, parent);
      if snapshot.Err? {
        NoWrites(files);
        return Err(snapshot.error);
      }
      ghost var copied := Snapshot(old(files), prefix, parentName, parent).value;
      assert copied + [] == copied;
      var failure := MergeFailure(delta, parent);
      if failure.Some? {
        return Err(failure.value);
      }
      var cumulative := NextGeneration(delta, parent, snapshot.value);
      r := PublishGeneration(delta, cumulative);
      AppliedSum(old(files), copied, Publish(Applied(old(files), copied), prefix, delta, cumulative).writes);
    }

    method ActivateCumulative(delta: Remediation, given: Option<Name>) returns (r: Result<(Name, Remediation), Failure>)
      modifies this
      ensures var o := Activate(old(files), prefix, delta, given);
        r == o.result && log == old(log) + o.writes && files == Applied(old(files), o.writes)
    {
      hide Publish, MergeAndPublish, StoreOnce, ResolveActive;
      if !Verified(delta) {
        return Err(InvalidDelta);
      }
      if DigestLength(delta.body.proposalSha) != 64 {
        return Err(InvalidProposalSha);
      }
      var parentName := ParentName(files, given);
      if parentName.Err? {
        return Err(parentName.error);
      }
      if parentName.value.Some? {
        var loaded := LoadParent(files, parentName.value.value);
        if loaded.Err? {
          return Err(loaded.error);
        }
        if loaded.value.body.proposalSha == delta.body.proposalSha {
          return Ok((parentName.value.value, loaded.value));
        }
      }
      var deltaName := DeltaFile(prefix(delta.body.proposalSha));
      var stored := StoreImmutable(deltaName, RemediationDoc(delta));
      if stored.Err? {
        return Err(stored.error);
      }
      ghost var writes := StoreOnce(old(files), deltaName, RemediationDoc(delta)).value;
      if parentName.value.Some? {
        r := MergeGeneration(delta, parentName.value.value);
      } else {
        r := PublishGeneration(delta, FirstGeneration(delta));
      }
      AppliedSum(old(files), writes, Build(Applied(old(files), writes), prefix, delta, parentName.value).writes);
    }
  }

  lemma NoWrites(files: Files)
    ensures Applied(files, []) == files
  {
  }

  lemma {:induction false} AppliedSum(files: Files, a: seq<Write>, b: seq<Write>)
    ensures Applied(files, a + b) == Applied(Applied(files, a), b)
  {
    if b == [] {
      assert a + b == a;
    } else {
      assert (a + b)[..|a + b| - 1] == a + b[..|b| - 1];
      AppliedSum(files, a, b[..|b| - 1]);
    }
  }

  // ----- Write once -----

  /** Every write but a closing pointer write creates a file, in the generation or delta namespace. */
  ghost predicate WritesOnce(files: Files, writes: seq<Write>) {
    forall i :: 0 <= i < |writes| ==> WriteIsSafe(files, writes, i)
  }

  predicate WriteIsSafe(files: Files, writes: seq<Write>, i: nat)
    requires i < |writes|
  {
    if writes[i].name == PointerFile then i == |writes| - 1
    else (writes[i].name.GenerationFile? || writes[i].name.DeltaFile?) && writes[i].name !in Applied(files, writes[..i])
  }

  lemma WritesOnceSum(files: Files, a: seq<Write>, b: seq<Write>)
    requires WritesOnce(files, a) && WritesOnce(Applied(files, a), b)
    requires forall i :: 0 <= i < |a| ==> a[i].name != PointerFile
    ensures WritesOnce(files, a + b)
  {
    hide Applied;
    forall i | 0 <= i < |a + b|
      ensures WriteIsSafe(files, a + b, i)
    {
      if i < |a| {
        assert (a + b)[..i] == a[..i];
        assert WriteIsSafe(files, a, i);
      } else {
        assert (a + b)[..i] == a + b[..i - |a|];
        AppliedSum(files, a, b[..i - |a|]);
        assert WriteIsSafe(Applied(files, a), b, i - |a|);
      }
    }
  }

  lemma StoreOnceIsSafe(files: Files, name: Name, document: Document)
    requires StoreOnce(files, name, document).Ok? && (name.GenerationFile? || name.DeltaFile?)
    ensures var writes := StoreOnce(files, name, document).value;
      WritesOnce(files, writes) && (forall i :: 0 <= i < |writes| ==> writes[i].name != PointerFile)
  {
  }

  lemma NoWriteIsSafe(files: Files)
    ensures WritesOnce(files, [])
  {
  }

  lemma PublishWritesOnce(files: Files, prefix: Prefix, delta: Remediation, cumulative: Remediation)
    ensures WritesOnce(files, Publish(files, prefix, delta, cumulative).writes)
  {
  }

  lemma MergeWritesOnce(files: Files, prefix: Prefix, delta: Remediation, parentName: Name)
    ensures WritesOnce(files, MergeAndPublish(files, prefix, delta, parentName).writes)
  {
    hide StoreOnce, WritesOnce, Publish, NextGeneration, MergeFailure;
    NoWriteIsSafe(files);
    var loaded := LoadParent(files, parentName);
    if loaded.Ok? && Snapshot(files, prefix, parentName, loaded.value).Ok? {
      var parent := loaded.value;
      var copied := Snapshot(files, prefix, parentName, parent).value;
      var name := SnapshotName(prefix, parentName, parent);
      if parentName == LegacyFile {
        StoreOnceIsSafe(files, name, RemediationDoc(parent));
      }
      NoWriteIsSafe(Applied(files, copied));
      PublishWritesOnce(Applied(files, copied), prefix, delta, NextGeneration(delta, parent, name));
      WritesOnceSum(files, copied,
                    if MergeFailure(delta, parent).Some? then []
                    else Publish(Applied(files, copied), prefix, delta, NextGeneration(delta, parent, name)).writes);
    }
  }

  lemma BuildWritesOnce(files: Files, prefix: Prefix, delta: Remediation, parentName: Option<Name>)
    ensures WritesOnce(files, StoreAndBuild(files, prefix, delta, parentName).writes)
  {
    hide StoreOnce, WritesOnce, Publish, MergeAndPublish;
    NoWriteIsSafe(files);
    var deltaName := DeltaFile(prefix(delta.body.proposalSha));
    if StoreOnce(files, deltaName, RemediationDoc(delta)).Ok? {
      var stored := StoreOnce(files, deltaName, RemediationDoc(delta)).value;
      var after := Applied(files, stored);
      StoreOnceIsSafe(files, deltaName, RemediationDoc(delta));
      if parentName.None? {
        PublishWritesOnce(after, prefix, delta, FirstGeneration(delta));
      } else {
        MergeWritesOnce(after, prefix, delta, parentName.value);
      }
      WritesOnceSum(files, stored, Build(after, prefix, delta, parentName).writes);
    }
  }

  /** No attempt overwrites a file other than the pointer, and the pointer is written last. */
  lemma ActivationWritesOnce(files: Files, prefix: Prefix, delta: Remediation, given: Option<Name>)
    ensures WritesOnce(files, Activate(files, prefix, delta, given).writes)
  {
    hide WritesOnce, StoreAndBuild;
    NoWriteIsSafe(files);
    BuildWritesOnce(files, prefix, delta, None);
    var parentName := ParentName(files, given);
    if parentName.Ok? && parentName.value.Some? {
      BuildWritesOnce(files, prefix, delta, parentName.value);
    }
  }

  /** Every file but the pointer is still there, unchanged. */
  ghost predicate Extends(before: Files, after: Files) {
    forall name :: name in before && name != PointerFile ==> name in after && after[name] == before[name]
  }

  lemma {:induction false} SafeWritesExtend(files: Files, writes: seq<Write>, k: nat)
    requires WritesOnce(files, writes) && k <= |writes|
    ensures Extends(files, Applied(files, writes[..k]))
    ensures k == |writes| ==> Extends(files, Applied(files, writes))
    ensures LegacyFile in Applied(files, writes[..k]) <==> LegacyFile in files
    ensures k < |writes| ==>
      (PointerFile in Applied(files, writes[..k]) <==> PointerFile in files)
      && (PointerFile in files ==> Applied(files, writes[..k])[PointerFile] == files[PointerFile])
  {
    if k > 0 {
      SafeWritesExtend(files, writes, k - 1);
      assert writes[..k][..k - 1] == writes[..k - 1];
      assert WriteIsSafe(files, writes, k - 1);
    }
    assert writes[..|writes|] == writes;
  }
}
