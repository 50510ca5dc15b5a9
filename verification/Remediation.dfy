/** Residual-remediation documents, their self-hashes, and the merge of an approved delta into a parent generation. */
module Remediation {
  import opened Prelude

  /** A listed row: an object with an id (empty when it has none), or something that is not an object. */
  datatype Entry = Row(id: string, content: string) | NotAnObject

  datatype Name = LegacyFile | PointerFile | GenerationFile(key: string) | DeltaFile(key: string) | OtherFile(path: string)

  /** A digest is a constructor over what was digested, hence injective; any other stored string is kept as written. */
  datatype Hash = OfBody(body: Body) | OfPointer(target: Target) | OfFile(document: Document) | Plain(text: string)

  datatype ParentRef = ParentRef(name: Name, fileSha: Hash, remediationSha: Hash)

  datatype Authority = Authority(masterSha: string, parent: Option<ParentRef>, others: string)

  datatype Counts = Counts(occurrences: nat, overrides: nat)

  /** A remediation without its self-hash. */
  datatype Body = Body(status: string, proposalSha: Hash, authority: Authority, occurrences: seq<Entry>, overrides: seq<Entry>,
                       generation: Option<int>, deltaCounts: Option<Counts>, others: string)

  datatype Remediation = Remediation(body: Body, selfSha: Hash)

  /** An active pointer without its self-hash. */
  datatype Target = Target(status: string, name: Name, fileSha: Hash, remediationSha: Hash)

  datatype Document = RemediationDoc(remediation: Remediation) | PointerDoc(target: Target, selfSha: Hash) | Malformed

  type Files = map<Name, Document>

  datatype Failure =
    | InvalidDelta | InvalidProposalSha | InvalidPointer | StalePointer | UnreadableParent | InvalidParent
    | Conflict(name: Name) | AnotherMaster | DuplicateOccurrences | DuplicateOverrides | InvalidCumulative

  const APPROVED := "OCR_RESIDUAL_REMEDIATION_APPROVED"

  const ACTIVE := "ACTIVE"

  function DigestLength(hash: Hash): nat {
    match hash
    case Plain(text) => |text|
    case _ => 64
  }

  predicate Verified(r: Remediation) {
    DigestLength(r.selfSha) == 64 && r.selfSha == OfBody(r.body) && r.body.status == APPROVED
  }

  function Signed(body: Body): Remediation { Remediation(body, OfBody(body)) }

  /** The rows that are objects. */
  function Rows(entries: seq<Entry>): seq<Entry> {
    if entries == [] then []
    else if entries[0].Row? then [entries[0]] + Rows(entries[1..])
    else Rows(entries[1..])
  }

  /** Every row has an id and no id repeats. */
  ghost predicate DistinctIds(rows: seq<Entry>) {
    && (forall i :: 0 <= i < |rows| ==> rows[i].Row? && rows[i].id != "")
    && (forall i, j :: 0 <= i < j < |rows| && rows[i].Row? && rows[j].Row? ==> rows[i].id != rows[j].id)
  }

  function Ids(rows: seq<Entry>): seq<string> {
    if rows == [] then [] else [if rows[0].Row? then rows[0].id else ""] + Ids(rows[1..])
  }

  /** The code's test: no id is empty and the set of ids is as large as the list. */
  predicate IdsAreSound(rows: seq<Entry>) {
    "" !in Ids(rows) && |Elements(Ids(rows))| == |Ids(rows)|
  }

  lemma {:induction false} IdsAt(rows: seq<Entry>, i: nat)
    requires i < |rows|
    ensures |Ids(rows)| == |rows| && Ids(rows)[i] == if rows[i].Row? then rows[i].id else ""
  {
    if i > 0 {
      IdsAt(rows[1..], i - 1);
    } else if |rows| > 1 {
      IdsAt(rows[1..], 0);
    }
  }

  lemma {:induction false} FullCardinalityIsDistinct<T>(s: seq<T>)
    requires |Elements(s)| == |s|
    ensures Distinct(s)
  {
    if s != [] {
      var front, last := s[..|s| - 1], s[|s| - 1];
      assert s == front + [last];
      assert Elements(s) == Elements(front) + {last};
      CardinalityAtMostLength(front);
      FullCardinalityIsDistinct(front);
      assert last !in front;
    }
  }

  /** Counting the distinct ids decides exactly whether every row has an id of its own. */
  lemma IdCountDecidesDistinctness(rows: seq<Entry>)
    requires forall i :: 0 <= i < |rows| ==> rows[i].Row?
    ensures IdsAreSound(rows) <==> DistinctIds(rows)
  {
    var ids := Ids(rows);
    forall i | 0 <= i < |rows|
      ensures |ids| == |rows| && ids[i] == rows[i].id
    {
      IdsAt(rows, i);
    }
    if rows == [] {
      assert Elements(ids) == {};
    }
    if IdsAreSound(rows) {
      FullCardinalityIsDistinct(ids);
    }
    if DistinctIds(rows) {
      DistinctCardinality(ids);
    }
  }

  function GenerationOf(r: Remediation): int { OrDefault(r.body.generation, 1) }

  function WithDelta(delta: Remediation, authority: Authority, occurrences: seq<Entry>, overrides: seq<Entry>, generation: int): Remediation {
    Signed(delta.body.(
      authority := authority, occurrences := occurrences, overrides := overrides, generation := Some(generation),
      deltaCounts := Some(Counts(|Rows(delta.body.occurrences)|, |Rows(delta.body.overrides)|))))
  }

  function FirstGeneration(delta: Remediation): Remediation {
    WithDelta(delta, delta.body.authority, Rows(delta.body.occurrences), Rows(delta.body.overrides), 1)
  }

  function NextGeneration(delta: Remediation, parent: Remediation, parentName: Name): Remediation {
    var ref := ParentRef(parentName, OfFile(RemediationDoc(parent)), parent.selfSha);
    WithDelta(delta, delta.body.authority.(parent := Some(ref)),
              Rows(parent.body.occurrences) + Rows(delta.body.occurrences),
              Rows(parent.body.overrides) + Rows(delta.body.overrides),
              GenerationOf(parent) + 1)
  }

  /** The checks of a merge, in the order they are made. */
  function MergeFailure(delta: Remediation, parent: Remediation): Option<Failure> {
    if parent.body.authority.masterSha != delta.body.authority.masterSha then Some(AnotherMaster)
    else if !IdsAreSound(Rows(parent.body.occurrences) + Rows(delta.body.occurrences)) then Some(DuplicateOccurrences)
    else if !IdsAreSound(Rows(parent.body.overrides) + Rows(delta.body.overrides)) then Some(DuplicateOverrides)
    else None
  }

  lemma {:induction false} RowsOfRows(entries: seq<Entry>)
    ensures Rows(Rows(entries)) == Rows(entries)
    ensures forall i :: 0 <= i < |Rows(entries)| ==> Rows(entries)[i].Row?
  {
    if entries != [] {
      RowsOfRows(entries[1..]);
    }
  }

  lemma {:induction false} RowsOfSum(a: seq<Entry>, b: seq<Entry>)
    ensures Rows(a + b) == Rows(a) + Rows(b)
  {
    if a == [] {
      assert a + b == b;
    } else {
      assert (a + b)[1..] == a[1..] + b;
      RowsOfSum(a[1..], b);
    }
  }

  /** A merged list holds objects only, so the next generation keeps all of it. */
  lemma RowsOfMerge(parent: seq<Entry>, delta: seq<Entry>)
    ensures Rows(Rows(parent) + Rows(delta)) == Rows(parent) + Rows(delta)
    ensures forall i :: 0 <= i < |Rows(parent) + Rows(delta)| ==> (Rows(parent) + Rows(delta))[i].Row?
  {
    RowsOfRows(parent);
    RowsOfRows(delta);
    RowsOfSum(Rows(parent), Rows(delta));
  }

  // ----- The active pointer -----

  /** The active document's name: the pointer's target when there is a pointer, else the legacy file, else nothing. */
  function ResolveActive(files: Files): Result<Option<Name>, Failure> {
    if PointerFile !in files then Ok(if LegacyFile in files then Some(LegacyFile) else None)
    else
      match files[PointerFile]
      case PointerDoc(target, selfSha) =>
        if target.status != ACTIVE || DigestLength(selfSha) != 64 || selfSha != OfPointer(target) then Err(InvalidPointer)
        else if target.name !in files || OfFile(files[target.name]) != target.fileSha || DigestLength(target.remediationSha) != 64
        then Err(StalePointer)
        else Ok(Some(target.name))
      case _ => Err(InvalidPointer)
  }

  function PointerTo(name: Name, r: Remediation): Document {
    var target := Target(ACTIVE, name, OfFile(RemediationDoc(r)), r.selfSha);
    PointerDoc(target, OfPointer(target))
  }

  /** A fresh pointer resolves to the document it was built for. */
  lemma PointerRoundTrip(files: Files, name: Name, r: Remediation)
    requires name != PointerFile && name in files && files[name] == RemediationDoc(r) && Verified(r)
    ensures ResolveActive(files[PointerFile := PointerTo(name, r)]) == Ok(Some(name))
  {
    var target := Target(ACTIVE, name, OfFile(RemediationDoc(r)), r.selfSha);
    assert files[PointerFile := PointerTo(name, r)][PointerFile] == PointerDoc(target, OfPointer(target));
  }
}
