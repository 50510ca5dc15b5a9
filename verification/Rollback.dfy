/** All-or-nothing application of a batch of approved cases over a directory in which any read or write may fail. */
module Rollback {
  import opened Prelude

  datatype FileName = Queue | Proposal | Decisions | Approvals | Audit | Timeline

  datatype Path = Path(root: string, file: FileName)

  type Files<C> = map<Path, C>

  function Lookup<C>(files: Files<C>, path: Path): Option<C> {
    if path in files then Some(files[path]) else None
  }

  /** Writes the content back, or removes the file when it did not exist. */
  function Put<C>(files: Files<C>, path: Path, content: Option<C>): Files<C> {
    match content
    case Some(c) => files[path := c]
    case None => files - {path}
  }

  type Snapshots<C> = map<Path, Option<C>>

  /** The files once every snapshot has been put back. */
  function Restored<C>(files: Files<C>, snapshots: Snapshots<C>): Files<C> {
    map path | path in files.Keys + snapshots.Keys && (path in snapshots ==> snapshots[path].Some?)
      :: if path in snapshots then snapshots[path].value else files[path]
  }

  lemma SameLookups<C>(a: Files<C>, b: Files<C>)
    requires forall path :: Lookup(a, path) == Lookup(b, path)
    ensures a == b
  {
    assert forall path :: (path in a <==> Lookup(a, path).Some?) && (path in b <==> Lookup(b, path).Some?);
    assert forall path :: path in a ==> a[path] == Lookup(a, path).value && b[path] == Lookup(b, path).value;
  }

  /** Changing a file that has a snapshot does not change what would be restored. */
  lemma CoveredWrite<C>(files: Files<C>, snapshots: Snapshots<C>, path: Path, content: Option<C>)
    requires path in snapshots
    ensures Restored(Put(files, path, content), snapshots) == Restored(files, snapshots)
  {
  }

  /** One case: the approvals and audit that applying it computes from the files, or a failure. */
  datatype Case<!C> = Case(root: string, review: Files<C> -> Option<(C, C)>)

  /** A case of Phase 2 comes with the decisions to write first. */
  datatype Decided<!C> = Decided(subject: Case<C>, decisions: C)

  function DecisionsOf<C>(d: Decided<C>): Path { Path(d.subject.root, Decisions) }

  function Subjects<C>(cases: seq<Decided<C>>): (subjects: seq<Case<C>>)
    ensures |subjects| == |cases| && forall i :: 0 <= i < |cases| ==> subjects[i] == cases[i].subject
  {
    if cases == [] then [] else [cases[0].subject] + Subjects(cases[1..])
  }

  function ApprovalsOf<C>(c: Case<C>): Path { Path(c.root, Approvals) }

  function AuditOf<C>(c: Case<C>): Path { Path(c.root, Audit) }

  function AppliedOne<C>(files: Files<C>, c: Case<C>): Option<Files<C>> {
    match c.review(files)
    case None => None
    case Some((approvals, audit)) => Some(files[ApprovalsOf(c) := approvals][AuditOf(c) := audit])
  }

  /** The files after every case was applied in order, if none of them fails. */
  function AppliedAll<C>(files: Files<C>, cases: seq<Case<C>>): Option<Files<C>> {
    if cases == [] then Some(files)
    else
      match AppliedAll(files, cases[..|cases| - 1])
      case None => None
      case Some(earlier) => AppliedOne(earlier, cases[|cases| - 1])
  }

  /** The files after the decisions of the first cases were written. */
  function Staged<C>(files: Files<C>, cases: seq<Decided<C>>): Files<C> {
    if cases == [] then files
    else
      var last := cases[|cases| - 1];
      Staged(files, cases[..|cases| - 1])[DecisionsOf(last) := last.decisions]
  }

  /** What Phase 2 restores once the decisions of these cases have been snapshotted: each snapshot is taken while writing. */
  function RolledBack<C>(files: Files<C>, cases: seq<Decided<C>>): Files<C> {
    if cases == [] then files
    else
      var front, path := cases[..|cases| - 1], DecisionsOf(cases[|cases| - 1]);
      Put(RolledBack(files, front), path, Lookup(Staged(files, front), path))
  }

  lemma {:induction false} OtherFilesKept<C>(files: Files<C>, cases: seq<Decided<C>>, path: Path)
    requires path.file != Decisions
    ensures Lookup(Staged(files, cases), path) == Lookup(files, path)
    ensures Lookup(RolledBack(files, cases), path) == Lookup(files, path)
  {
    if cases != [] {
      OtherFilesKept(files, cases[..|cases| - 1], path);
    }
  }

  // ----- The run directory -----

  class Directory<C> {
    var files: Files<C>
    var clock: nat
    /** Which disk operations fail, by their position in the run. */
    const faults: nat -> bool

    constructor (files: Files<C>, faults: nat -> bool)
      ensures this.files == files && this.faults == faults
    {
      this.files, this.faults, this.clock := files, faults, 0;
    }

    method Attempt() returns (ok: bool)
      modifies this`clock
      ensures !ok ==> exists n :: faults(n)
    {
      ok := !faults(clock);
      clock := clock + 1;
    }

    method Write(path: Path, content: C) returns (ok: bool)
      modifies this
      ensures files == if ok then old(files)[path := content] else old(files)
      ensures !ok ==> exists n :: faults(n)
    {
      ok := Attempt();
      if ok {
        files := files[path := content];
      }
    }

    method Restore(path: Path, previous: Option<C>)
      modifies this`files
      ensures files == Put(old(files), path, previous)
    {
      files := match previous case Some(c) => files[path := c] case None => files - {path};
    }

    method RestoreAll(order: seq<Path>, snapshots: Snapshots<C>)
      requires forall path :: path in snapshots <==> path in order
      modifies this`files
      ensures files == Restored(old(files), snapshots)
    {
      var i := 0;
      while i < |order|
        invariant 0 <= i <= |order|
        invariant Restored(files, snapshots) == Restored(old(files), snapshots)
        invariant forall k :: 0 <= k < i ==> Lookup(files, order[k]) == snapshots[order[k]]
      {
        CoveredWrite(files, snapshots, order[i], snapshots[order[i]]);
        Restore(order[i], snapshots[order[i]]);
        i := i + 1;
      }
      forall path
        ensures Lookup(files, path) == Lookup(Restored(files, snapshots), path)
      {
        if path in order {
          var k :| 0 <= k < |order| && order[k] == path;
        }
      }
      SameLookups(files, Restored(files, snapshots));
    }

    /** One case of either batch: approvals first, then the audit; it may also fail afterwards, while its result is read. */
    method ApplyCase(c: Case<C>, ghost snapshots: Snapshots<C>) returns (ok: bool)
      requires ApprovalsOf(c) in snapshots && AuditOf(c) in snapshots
      modifies this
      ensures Restored(files, snapshots) == Restored(old(files), snapshots)
      ensures ok ==> AppliedOne(old(files), c) == Some(files)
      ensures !ok ==> AppliedOne(old(files), c) == None || exists n :: faults(n)
    {
      hide Restored;
      var computed := c.review(files);
      if computed.None? {
        return false;
      }
      var (approvals, audit) := computed.value;
      CoveredWrite(files, snapshots, ApprovalsOf(c), Some(approvals));
      ok := Write(ApprovalsOf(c), approvals);
      if ok {
        CoveredWrite(files, snapshots, AuditOf(c), Some(audit));
        ok := Write(AuditOf(c), audit);
        if ok {
          ok := Attempt();
        }
      }
    }

    method ApplyCases(cases: seq<Case<C>>, ghost snapshots: Snapshots<C>) returns (ok: bool)
      requires forall k :: 0 <= k < |cases| ==> ApprovalsOf(cases[k]) in snapshots && AuditOf(cases[k]) in snapshots
      modifies this
      ensures Restored(files, snapshots) == Restored(old(files), snapshots)
      ensures ok ==> AppliedAll(old(files), cases) == Some(files)
      ensures !ok ==> AppliedAll(old(files), cases) == None || exists n :: faults(n)
    {
      hide Restored, AppliedOne;
      var i := 0;
      while i < |cases|
        invariant 0 <= i <= |cases|
        invariant Restored(files, snapshots) == Restored(old(files), snapshots)
        invariant AppliedAll(old(files), cases[..i]) == Some(files)
      {
        assert cases[..i + 1][..i] == cases[..i];
        ok := ApplyCase(cases[i], snapshots);
        if !ok {
          ApplicationFails(old(files), cases, i + 1);
          return;
        }
        i := i + 1;
      }
      assert cases[..i] == cases;
      ok := true;
    }

    method TakeSnapshot(path: Path, snapshots: Snapshots<C>) returns (ok: bool, taken: Snapshots<C>)
      modifies this`clock
      ensures taken == if ok then snapshots[path := Lookup(files, path)] else snapshots
      ensures !ok ==> exists n :: faults(n)
      ensures ok ==> Restored(files, taken) == Put(Restored(files, snapshots), path, Lookup(files, path))
    {
      taken := snapshots;
      ok := Attempt();
      if ok {
        taken := snapshots[path := Lookup(files, path)];
      }
    }

    /** A snapshot of a file that is still as it was adds nothing to restore. */
    method SnapshotUntouched(path: Path, snapshots: Snapshots<C>, ghost original: Files<C>) returns (ok: bool, taken: Snapshots<C>)
      requires Restored(files, snapshots) == original && Lookup(files, path) == Lookup(original, path)
      modifies this`clock
      ensures Restored(files, taken) == original
      ensures taken.Keys == if ok then snapshots.Keys + {path} else snapshots.Keys
      ensures !ok ==> exists n :: faults(n)
    {
      ok, taken := TakeSnapshot(path, snapshots);
    }

    /** Snapshots the approvals and the audit of a case, both still as they were. */
    method SnapshotReviewFiles(c: Case<C>, snapshots: Snapshots<C>, ghost original: Files<C>)
      returns (ok: bool, taken: Snapshots<C>, order: seq<Path>)
      requires Restored(files, snapshots) == original
      requires Lookup(files, ApprovalsOf(c)) == Lookup(original, ApprovalsOf(c))
      requires Lookup(files, AuditOf(c)) == Lookup(original, AuditOf(c))
      modifies this`clock
      ensures Restored(files, taken) == original
      ensures forall path :: path in taken.Keys <==> path in snapshots.Keys || path in order
      ensures ok ==> ApprovalsOf(c) in taken && AuditOf(c) in taken
      ensures !ok ==> exists n :: faults(n)
    {
      hide Restored, Lookup;
      order := [];
      ok, taken := SnapshotUntouched(ApprovalsOf(c), snapshots, original);
      if ok {
        order := [ApprovalsOf(c)];
        ok, taken := SnapshotUntouched(AuditOf(c), taken, original);
        if ok {
          order := [ApprovalsOf(c), AuditOf(c)];
        }
      }
    }

    /** Phase 3 snapshots every approvals and audit file before it applies the first case. */
    method ApplyPhase3(cases: seq<Case<C>>) returns (ok: bool)
      modifies this
      ensures ok ==> AppliedAll(old(files), cases) == Some(files)
      ensures !ok ==> files == old(files)
      ensures !ok ==> AppliedAll(old(files), cases) == None || exists n :: faults(n)
    {
      hide Restored, AppliedAll;
      var order: seq<Path>, snapshots: Snapshots<C> := [], map[];
      NothingSnapshotted(files);
      var i := 0;
      while i < |cases|
        invariant 0 <= i <= |cases|
        invariant files == old(files) && Restored(files, snapshots) == old(files)
        invariant forall path :: path in snapshots.Keys <==> path in order
        invariant forall k :: 0 <= k < i ==> ApprovalsOf(cases[k]) in snapshots && AuditOf(cases[k]) in snapshots
      {
        var added;
        ok, snapshots, added := SnapshotReviewFiles(cases[i], snapshots, old(files));
        if !ok {
          return;
        }
        order := order + added;
        i := i + 1;
      }
      ok := ApplyCases(cases, snapshots);
      if !ok {
        RestoreAll(order, snapshots);
      }
    }

    /** Snapshots the three files of one case, then writes its decisions. */
    method StageCase(cases: seq<Decided<C>>, i: nat, snapshots: Snapshots<C>, ghost original: Files<C>)
      returns (ok: bool, taken: Snapshots<C>, order: seq<Path>, ghost staged: nat)
      requires i < |cases| && files == Staged(original, cases[..i])
      requires Restored(files, snapshots) == RolledBack(original, cases[..i])
      modifies this
      ensures staged in {i, i + 1} && (ok ==> staged == i + 1)
      ensures Restored(files, taken) == RolledBack(original, cases[..staged])
      ensures forall path :: path in taken.Keys <==> path in snapshots.Keys || path in order
      ensures ok ==> files == Staged(original, cases[..i + 1])
      ensures ok ==> ApprovalsOf(cases[i].subject) in taken && AuditOf(cases[i].subject) in taken
      ensures !ok ==> exists n :: faults(n)
    {
      hide Restored, Lookup, Put;
      var c := cases[i];
      order, staged := [], i;
      StagedStep(original, cases, i);
      ok, taken := TakeSnapshot(DecisionsOf(c), snapshots);
      if !ok {
        return;
      }
      staged := i + 1;
      ReviewFilesKept(original, cases, i);
      hide Staged, RolledBack;
      ok, taken, order := SnapshotReviewFiles(c.subject, taken, RolledBack(original, cases[..i + 1]));
      order := [DecisionsOf(c)] + order;
      if ok {
        CoveredWrite(files, taken, DecisionsOf(c), Some(c.decisions));
        PutSome(files, DecisionsOf(c), c.decisions);
        ok := Write(DecisionsOf(c), c.decisions);
      }
    }

    /** Phase 2 writes all decisions, taking its snapshots on the way, and only then applies the cases. */
    method ApplyPhase2(cases: seq<Decided<C>>) returns (ok: bool, ghost staged: nat)
      modifies this
      ensures ok ==> AppliedAll(Staged(old(files), cases), Subjects(cases)) == Some(files)
      ensures !ok ==> staged <= |cases| && files == RolledBack(old(files), cases[..staged])
      ensures !ok ==> AppliedAll(Staged(old(files), cases), Subjects(cases)) == None || exists n :: faults(n)
    {
      hide Restored, AppliedAll, Staged, RolledBack;
      var touched: seq<Path>, snapshots: Snapshots<C> := [], map[];
      NothingSnapshotted(files);
      NothingStaged(files, cases);
      var i := 0;
      staged := 0;
      while i < |cases|
        invariant 0 <= i <= |cases| && staged == i
        invariant files == Staged(old(files), cases[..i])
        invariant Restored(files, snapshots) == RolledBack(old(files), cases[..i])
        invariant forall path :: path in snapshots.Keys <==> path in touched
        invariant forall k :: 0 <= k < i ==> ApprovalsOf(cases[k].subject) in snapshots && AuditOf(cases[k].subject) in snapshots
      {
        var order;
        ok, snapshots, order, staged := StageCase(cases, i, snapshots, old(files));
        touched := touched + order;
        if !ok {
          RestoreAll(Reversed(touched), snapshots);
          return;
        }
        i := i + 1;
      }
      assert cases[..i] == cases;
      ok := ApplyCases(Subjects(cases), snapshots);
      if !ok {
        RestoreAll(Reversed(touched), snapshots);
      }
    }
  }

  lemma StagedStep<C>(files: Files<C>, cases: seq<Decided<C>>, i: nat)
    requires i < |cases|
    ensures var path := DecisionsOf(cases[i]);
      && Staged(files, cases[..i + 1]) == Staged(files, cases[..i])[path := cases[i].decisions]
      && RolledBack(files, cases[..i + 1]) == Put(RolledBack(files, cases[..i]), path, Lookup(Staged(files, cases[..i]), path))
  {
    assert cases[..i + 1][..i] == cases[..i];
  }

  lemma ReviewFilesKept<C>(files: Files<C>, cases: seq<Decided<C>>, i: nat)
    requires i < |cases|
    ensures var staged, target := Staged(files, cases[..i]), RolledBack(files, cases[..i + 1]);
      && Lookup(staged, ApprovalsOf(cases[i].subject)) == Lookup(target, ApprovalsOf(cases[i].subject))
      && Lookup(staged, AuditOf(cases[i].subject)) == Lookup(target, AuditOf(cases[i].subject))
  {
    OtherFilesKept(files, cases[..i], ApprovalsOf(cases[i].subject));
    OtherFilesKept(files, cases[..i], AuditOf(cases[i].subject));
    OtherFilesKept(files, cases[..i + 1], ApprovalsOf(cases[i].subject));
    OtherFilesKept(files, cases[..i + 1], AuditOf(cases[i].subject));
  }

  lemma PutSome<C>(files: Files<C>, path: Path, content: C)
    ensures Put(files, path, Some(content)) == files[path := content]
  {
  }

  function Reversed(s: seq<Path>): (r: seq<Path>)
    ensures forall x :: x in r <==> x in s
  {
    if s == [] then []
    else
      assert s == [s[0]] + s[1..];
      Reversed(s[1..]) + [s[0]]
  }

  lemma NothingStaged<C>(files: Files<C>, cases: seq<Decided<C>>)
    ensures Staged(files, cases[..0]) == files && RolledBack(files, cases[..0]) == files
  {
  }

  lemma NothingSnapshotted<C>(files: Files<C>)
    ensures Restored(files, map[]) == files
  {
  }

  lemma {:induction false} ApplicationFails<C>(files: Files<C>, cases: seq<Case<C>>, n: nat)
    requires n <= |cases|
    ensures AppliedAll(files, cases[..n]) == None ==> AppliedAll(files, cases) == None
  {
    hide AppliedOne;
    if n < |cases| {
      assert cases[..|cases| - 1][..n] == cases[..n];
      ApplicationFails(files, cases[..|cases| - 1], n);
    } else {
      assert cases[..n] == cases;
    }
  }

  // ----- When Phase 2 restores everything -----

  /** Two cases share a root only if the decisions file already held the content the earlier one writes. */
  ghost predicate RepeatsAreHarmless<C>(files: Files<C>, cases: seq<Decided<C>>) {
    forall i, j :: 0 <= i < j < |cases| && cases[i].subject.root == cases[j].subject.root
      ==> Lookup(files, DecisionsOf(cases[i])) == Some(cases[i].decisions)
  }

  /** The decisions file of a root, once some cases are staged, comes from the last of them with that root. */
  lemma {:induction false} StagedContent<C>(files: Files<C>, cases: seq<Decided<C>>, root: string) returns (last: int)
    ensures -1 <= last < |cases|
    ensures forall k :: last < k < |cases| ==> cases[k].subject.root != root
    ensures last >= 0 ==> cases[last].subject.root == root
    ensures Lookup(Staged(files, cases), Path(root, Decisions)) ==
      if last >= 0 then Some(cases[last].decisions) else Lookup(files, Path(root, Decisions))
  {
    if cases == [] {
      last := -1;
    } else if cases[|cases| - 1].subject.root == root {
      last := |cases| - 1;
    } else {
      last := StagedContent(files, cases[..|cases| - 1], root);
    }
  }

  lemma {:induction false} HarmlessRepeatsRollBack<C>(files: Files<C>, cases: seq<Decided<C>>)
    requires RepeatsAreHarmless(files, cases)
    ensures RolledBack(files, cases) == files
  {
    if cases != [] {
      var front, last := cases[..|cases| - 1], cases[|cases| - 1];
      HarmlessRepeatsRollBack(files, front);
      var k := StagedContent(files, front, last.subject.root);
      assert k >= 0 ==> cases[k].subject.root == cases[|cases| - 1].subject.root;
    }
  }

  /** When every stopping point is undone, the next case on the same root proves the earlier content was already there. */
  lemma NextRepeatExposes<C>(files: Files<C>, cases: seq<Decided<C>>, i: nat, j: nat)
    requires i < j < |cases| && cases[i].subject.root == cases[j].subject.root
    requires forall k :: i < k < j ==> cases[k].subject.root != cases[i].subject.root
    requires RolledBack(files, cases[..j + 1]) == files
    ensures Lookup(files, DecisionsOf(cases[i])) == Some(cases[i].decisions)
  {
    assert cases[..j + 1][..j] == cases[..j];
    var k := StagedContent(files, cases[..j], cases[i].subject.root);
    assert k == i;
  }

  lemma {:induction false} RepeatExposes<C>(files: Files<C>, cases: seq<Decided<C>>, i: nat, j: nat)
    requires i < j < |cases| && cases[i].subject.root == cases[j].subject.root
    requires forall m :: 0 <= m <= |cases| ==> RolledBack(files, cases[..m]) == files
    ensures Lookup(files, DecisionsOf(cases[i])) == Some(cases[i].decisions)
    decreases j - i
  {
    hide RolledBack;
    if k :| i < k < j && cases[k].subject.root == cases[i].subject.root {
      RepeatExposes(files, cases, i, k);
    } else {
      NextRepeatExposes(files, cases, i, j);
    }
  }

  /**
   * Phase 2 undoes a failure at every possible point exactly when no two cases share a root, except where the earlier
   * decisions were already on disk before the batch.
   */
  lemma WhenPhase2RollsBack<C>(files: Files<C>, cases: seq<Decided<C>>)
    ensures (forall m :: 0 <= m <= |cases| ==> RolledBack(files, cases[..m]) == files) <==> RepeatsAreHarmless(files, cases)
  {
    hide RolledBack;
    if forall m :: 0 <= m <= |cases| ==> RolledBack(files, cases[..m]) == files {
      forall i, j | 0 <= i < j < |cases| && cases[i].subject.root == cases[j].subject.root
        ensures Lookup(files, DecisionsOf(cases[i])) == Some(cases[i].decisions)
      {
        RepeatExposes(files, cases, i, j);
      }
    }
    if RepeatsAreHarmless(files, cases) {
      forall m | 0 <= m <= |cases|
        ensures RolledBack(files, cases[..m]) == files
      {
        HarmlessRepeatsRollBack(files, cases[..m]);
      }
    }
  }

  /** The failing family: after a failure past the second case of one root, the first case's decisions stay on disk. */
  lemma RepeatedCaseIsLeftBehind<C>(files: Files<C>, c: Decided<C>, d: Decided<C>)
    requires c.subject.root == d.subject.root
    ensures Lookup(RolledBack(files, [c, d]), DecisionsOf(c)) == Some(c.decisions)
  {
    assert [c, d][..1] == [c] && [c][..0] == [];
  }

  ghost predicate DistinctRoots<C>(cases: seq<Decided<C>>) {
    forall i, j :: 0 <= i < j < |cases| ==> cases[i].subject.root != cases[j].subject.root
  }

  lemma DistinctRootsRollBack<C>(files: Files<C>, cases: seq<Decided<C>>, m: nat)
    requires DistinctRoots(cases) && m <= |cases|
    ensures RolledBack(files, cases[..m]) == files
  {
    HarmlessRepeatsRollBack(files, cases[..m]);
  }
}
