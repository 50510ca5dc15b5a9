/** The cumulative false-positive approvals of a case: a keyed bundle rebuilt from the prior one at every materialization. */
module FalsePositiveBundle {
  import opened Prelude
  import opened Text
  import opened Sorting

  /** A residual cluster under review; its content is the representative detection with its hashes and evidence. */
  datatype ReviewCluster = ReviewCluster(clusterId: string, detections: nat, content: string)

  datatype Decision = Decision(clusterId: string, content: string)

  datatype Source = CarriedFrom(prior: string) | DecidedBy(decision: Decision, cluster: ReviewCluster)

  /** One approval; a carried one keeps the content of the prior approval it was taken from. */
  datatype Entry = Entry(clusterId: string, content: string, source: Source)

  /** The active approval file: version 1 is a single approval, version 2 lists them. */
  datatype Prior = Version1(approval: Entry) | Version2(approvals: seq<Entry>)

  datatype BundleError = InvalidPrior | MissingCluster(clusterId: string) | EmptyCluster(clusterId: string)

  type Order = (Entry, Entry) -> bool

  function PriorRows(prior: Option<Prior>): seq<Entry> {
    match prior
    case None => []
    case Some(Version1(approval)) => [approval]
    case Some(Version2(approvals)) => approvals
  }

  predicate AllNamed(rows: seq<Entry>) { forall i :: 0 <= i < |rows| ==> rows[i].clusterId != "" }

  /** No two approvals share an id. */
  predicate KeyUnique(entries: seq<Entry>) {
    forall a, b :: 0 <= a < b < |entries| ==> entries[a].clusterId != entries[b].clusterId
  }

  /** The loader refuses a version 2 file that is empty, lacks an id or repeats one; of version 1 it asks for no id. */
  predicate Loads(prior: Option<Prior>) {
    prior.Some? && prior.value.Version2? ==>
      prior.value.approvals != [] && AllNamed(prior.value.approvals) && KeyUnique(prior.value.approvals)
  }

  /** The id given to the n-th prior approval that has none. */
  function LegacyName(n: nat): string { "legacy_v1_" + Padded(n) }

  function CarriedId(row: Entry, position: nat): string { if row.clusterId != "" then row.clusterId else LegacyName(position) }

  /** The prior approvals, counted from one, each under its id or a legacy name. */
  function Carried(rows: seq<Entry>): (carried: seq<Entry>)
    ensures |carried| == |rows|
    ensures forall i :: 0 <= i < |rows| ==> carried[i] == Entry(CarriedId(rows[i], i + 1), rows[i].content, CarriedFrom(rows[i].content))
  {
    if rows == [] then []
    else
      var last := rows[|rows| - 1];
      Carried(rows[..|rows| - 1]) + [Entry(CarriedId(last, |rows|), last.content, CarriedFrom(last.content))]
  }

  function ClusterFor(clusters: seq<ReviewCluster>, id: string): Option<ReviewCluster> {
    if clusters == [] then None
    else if clusters[|clusters| - 1].clusterId == id then Some(clusters[|clusters| - 1])
    else ClusterFor(clusters[..|clusters| - 1], id)
  }

  function Without(entries: seq<Entry>, id: string): seq<Entry> {
    if entries == [] then []
    else
      var last := entries[|entries| - 1];
      Without(entries[..|entries| - 1], id) + (if last.clusterId != id then [last] else [])
  }

  function EntryFor(d: Decision, c: ReviewCluster): Entry { Entry(d.clusterId, c.content, DecidedBy(d, c)) }

  function Refusal(clusters: seq<ReviewCluster>, d: Decision): Option<BundleError> {
    match ClusterFor(clusters, d.clusterId)
    case None => Some(MissingCluster(d.clusterId))
    case Some(c) => if c.detections == 0 then Some(EmptyCluster(d.clusterId)) else None
  }

  function Decided(entries: seq<Entry>, clusters: seq<ReviewCluster>, decisions: seq<Decision>): Result<seq<Entry>, BundleError> {
    if decisions == [] then Ok(entries)
    else
      var last := decisions[|decisions| - 1];
      match Decided(entries, clusters, decisions[..|decisions| - 1])
      case Err(e) => Err(e)
      case Ok(earlier) =>
        if Refusal(clusters, last).Some? then Err(Refusal(clusters, last).value)
        else Ok(Without(earlier, last.clusterId) + [EntryFor(last, ClusterFor(clusters, last.clusterId).value)])
  }

  /** The new file, from the approvals of the prior one and the decisions. */
  function Bundle(prior: Option<Prior>, clusters: seq<ReviewCluster>, decisions: seq<Decision>, order: Order): Result<Prior, BundleError> {
    if !Loads(prior) then Err(InvalidPrior)
    else
      match Decided(Carried(PriorRows(prior)), clusters, decisions)
      case Err(e) => Err(e)
      case Ok(entries) => Ok(Version2(Sort(entries, order)))
  }

  method Materialize(prior: Option<Prior>, clusters: seq<ReviewCluster>, decisions: seq<Decision>, order: Order)
    returns (r: Result<Prior, BundleError>)
    ensures r == Bundle(prior, clusters, decisions, order)
  {
    hide Refusal, EntryFor, Without, LegacyName, Sort, AllNamed, KeyUnique;
    var loads := CheckPrior(prior);
    if !loads {
      return Err(InvalidPrior);
    }
    var rows := PriorRows(prior);
    var entries := CarryOver(rows);
    ghost var carried := entries;
    var i := 0;
    while i < |decisions|
      invariant 0 <= i <= |decisions|
      invariant Decided(carried, clusters, decisions[..i]) == Ok(entries)
    {
      assert decisions[..i + 1][..i] == decisions[..i];
      var refused := Refusal(clusters, decisions[i]);
      if refused.Some? {
        DecidedFails(carried, clusters, decisions, i + 1);
        return Err(refused.value);
      }
      AcceptedCluster(clusters, decisions[i]);
      entries := Without(entries, decisions[i].clusterId) + [EntryFor(decisions[i], ClusterFor(clusters, decisions[i].clusterId).value)];
      i := i + 1;
    }
    assert decisions[..i] == decisions;
    r := Ok(Version2(Sort(entries, order)));
  }

  /** The loader's pass over the ids of a version 2 file. */
  method CheckPrior(prior: Option<Prior>) returns (loads: bool)
    ensures loads == Loads(prior)
  {
    if prior.None? || prior.value.Version1? {
      return true;
    }
    var rows := prior.value.approvals;
    if rows == [] {
      return false;
    }
    var seen: set<string> := {};
    var i := 0;
    while i < |rows|
      invariant 0 <= i <= |rows|
      invariant seen == set k | 0 <= k < i :: rows[k].clusterId
      invariant AllNamed(rows[..i]) && KeyUnique(rows[..i])
    {
      if rows[i].clusterId == "" || rows[i].clusterId in seen {
        return false;
      }
      seen := seen + {rows[i].clusterId};
      i := i + 1;
    }
    assert rows[..i] == rows;
    loads := true;
  }

  lemma AcceptedCluster(clusters: seq<ReviewCluster>, d: Decision)
    requires Refusal(clusters, d).None?
    ensures ClusterFor(clusters, d.clusterId).Some? && ClusterFor(clusters, d.clusterId).value.detections > 0
  {
  }

  method CarryOver(rows: seq<Entry>) returns (entries: seq<Entry>)
    ensures entries == Carried(rows)
  {
    hide LegacyName;
    entries := [];
    var i := 0;
    while i < |rows|
      invariant 0 <= i <= |rows|
      invariant entries == Carried(rows[..i])
    {
      assert rows[..i + 1][..i] == rows[..i];
      var id := if rows[i].clusterId != "" then rows[i].clusterId else LegacyName(i + 1);
      entries := entries + [Entry(id, rows[i].content, CarriedFrom(rows[i].content))];
      i := i + 1;
    }
    assert rows[..i] == rows;
  }

  lemma DecidedFails(entries: seq<Entry>, clusters: seq<ReviewCluster>, decisions: seq<Decision>, n: nat)
    requires n <= |decisions| && Decided(entries, clusters, decisions[..n]).Err?
    ensures Decided(entries, clusters, decisions) == Decided(entries, clusters, decisions[..n])
  {
    hide Refusal, EntryFor, Without;
    PrefixFails(t => Decided(entries, clusters, t), decisions, n);
  }

  // ----- One materialization -----

  predicate Has(entries: seq<Entry>, id: string) { exists e :: e in entries && e.clusterId == id }

  lemma {:induction false} WithoutIs(entries: seq<Entry>, id: string)
    ensures forall e :: e in Without(entries, id) <==> e in entries && e.clusterId != id
    ensures KeyUnique(entries) ==> KeyUnique(Without(entries, id))
  {
    if entries != [] {
      var front, last := entries[..|entries| - 1], entries[|entries| - 1];
      WithoutIs(front, id);
      assert entries == front + [last];
      if KeyUnique(entries) && last.clusterId != id {
        AppendIsUnique(Without(front, id), last);
      }
    }
  }

  lemma AppendIsUnique(entries: seq<Entry>, last: Entry)
    requires KeyUnique(entries) && forall e :: e in entries ==> e.clusterId != last.clusterId
    ensures KeyUnique(entries + [last])
  {
  }

  /** The newest decision about an id. */
  function Newest(decisions: seq<Decision>, id: string): Option<Decision> {
    if decisions == [] then None
    else if decisions[|decisions| - 1].clusterId == id then Some(decisions[|decisions| - 1])
    else Newest(decisions[..|decisions| - 1], id)
  }

  /** What a bundle holds under one id: the newest decision about it, else what was carried. */
  ghost predicate HoldsNewest(carried: seq<Entry>, clusters: seq<ReviewCluster>, decisions: seq<Decision>, entries: seq<Entry>, id: string) {
    match Newest(decisions, id)
    case None => forall e: Entry :: e.clusterId == id ==> (e in entries <==> e in carried)
    case Some(d) => ClusterFor(clusters, id).Some?
                    && forall e: Entry :: e.clusterId == id ==> (e in entries <==> e == EntryFor(d, ClusterFor(clusters, id).value))
  }

  /** Decisions replace by id: the newest per id stays, undecided ids keep what they had, and ids stay unique. */
  lemma {:induction false} DecidedHoldsNewest(carried: seq<Entry>, clusters: seq<ReviewCluster>, decisions: seq<Decision>, id: string)
    requires Decided(carried, clusters, decisions).Ok?
    ensures HoldsNewest(carried, clusters, decisions, Decided(carried, clusters, decisions).value, id)
    ensures KeyUnique(carried) ==> KeyUnique(Decided(carried, clusters, decisions).value)
  {
    hide KeyUnique, ClusterFor, Without;
    if decisions != [] {
      var front, last := decisions[..|decisions| - 1], decisions[|decisions| - 1];
      DecidedHoldsNewest(carried, clusters, front, id);
      var earlier := Decided(carried, clusters, front).value;
      AcceptedCluster(clusters, last);
      WithoutIs(earlier, last.clusterId);
      if KeyUnique(carried) {
        AppendIsUnique(Without(earlier, last.clusterId), EntryFor(last, ClusterFor(clusters, last.clusterId).value));
      }
    }
  }

  lemma ConsIsUnique(x: Entry, s: seq<Entry>)
    requires KeyUnique(s) && forall e :: e in s ==> e.clusterId != x.clusterId
    ensures KeyUnique([x] + s)
  {
  }

  lemma {:induction false} InsertKeepsUnique(x: Entry, s: seq<Entry>, order: Order)
    requires KeyUnique(s) && forall e :: e in s ==> e.clusterId != x.clusterId
    ensures KeyUnique(Insert(x, s, order))
    ensures forall e :: e in Insert(x, s, order) <==> e == x || e in s
  {
    if s == [] || order(x, s[0]) {
      ConsIsUnique(x, s);
    } else {
      assert s == [s[0]] + s[1..];
      InsertKeepsUnique(x, s[1..], order);
      ConsIsUnique(s[0], Insert(x, s[1..], order));
    }
  }

  lemma {:induction false} SortKeepsUnique(s: seq<Entry>, order: Order)
    requires KeyUnique(s)
    ensures KeyUnique(Sort(s, order))
    ensures forall e :: e in Sort(s, order) <==> e in s
  {
    if s != [] {
      assert s == [s[0]] + s[1..];
      SortKeepsUnique(s[1..], order);
      InsertKeepsUnique(s[0], Sort(s[1..], order), order);
    }
  }

  // ----- One materialization, whatever the prior file -----

  /** The approvals of a file under the ids by which the next materialization knows them. */
  function Held(file: Option<Prior>): seq<Entry> { Carried(PriorRows(file)) }

  predicate HasContent(entries: seq<Entry>, id: string, content: string) {
    exists e :: e in entries && e.clusterId == id && e.content == content
  }

  lemma CarriedAreNamed(rows: seq<Entry>)
    ensures AllNamed(Carried(rows))
  {
    forall i | 0 <= i < |rows|
      ensures Carried(rows)[i].clusterId != ""
    {
      assert |LegacyName(i + 1)| >= 10;
    }
  }

  ghost predicate SamePlace(a: seq<Entry>, b: seq<Entry>) {
    |a| == |b| && forall i :: 0 <= i < |a| ==> a[i].clusterId == b[i].clusterId && a[i].content == b[i].content
  }

  lemma SameContent(a: seq<Entry>, b: seq<Entry>, id: string, content: string)
    requires SamePlace(a, b) && HasContent(a, id, content)
    ensures HasContent(b, id, content)
  {
    var e :| e in a && e.clusterId == id && e.content == content;
    var i :| 0 <= i < |a| && a[i] == e;
    assert b[i] in b;
  }

  lemma NamedStayInPlace(rows: seq<Entry>)
    requires AllNamed(rows)
    ensures SamePlace(rows, Carried(rows)) && SamePlace(Carried(rows), rows)
  {
    hide LegacyName;
  }

  /** Carrying named approvals over changes no id and no content. */
  lemma NamedAreCarried(rows: seq<Entry>)
    requires AllNamed(rows)
    ensures KeyUnique(rows) ==> KeyUnique(Carried(rows))
    ensures forall id, content :: HasContent(Carried(rows), id, content) <==> HasContent(rows, id, content)
  {
    NamedStayInPlace(rows);
    hide Carried;
    forall id, content
      ensures HasContent(Carried(rows), id, content) <==> HasContent(rows, id, content)
    {
      hide *;
      if HasContent(Carried(rows), id, content) {
        SameContent(Carried(rows), rows, id, content);
      } else if HasContent(rows, id, content) {
        SameContent(rows, Carried(rows), id, content);
      }
    }
  }

  /** Whatever loads is carried over under distinct ids. */
  lemma LoadedIsUnique(prior: Option<Prior>)
    requires Loads(prior)
    ensures KeyUnique(Held(prior))
  {
    hide LegacyName;
    if prior.Some? && prior.value.Version2? {
      NamedAreCarried(prior.value.approvals);
    }
  }

  /**
   * A materialization that goes through keeps the ids unique and every earlier id, and holds the newest decision about
   * each. The file it writes loads again exactly when every decision names its cluster.
   */
  lemma MaterializationKeepsIds(prior: Option<Prior>, clusters: seq<ReviewCluster>, decisions: seq<Decision>, order: Order)
    requires Bundle(prior, clusters, decisions, order).Ok? && decisions != []
    ensures var next := Bundle(prior, clusters, decisions, order).value;
      && next.Version2? && KeyUnique(next.approvals)
      && (Loads(Some(next)) <==> forall d :: d in decisions ==> d.clusterId != "")
      && (forall id :: Has(Held(prior), id) ==> Has(next.approvals, id))
      && (forall id :: HoldsNewest(Held(prior), clusters, decisions, next.approvals, id))
  {
    hide Decided, KeyUnique, LegacyName, Sort, HoldsNewest, Carried;
    var carried := Held(prior);
    var entries := Decided(carried, clusters, decisions).value;
    var next := Bundle(prior, clusters, decisions, order).value;
    CarriedAreNamed(PriorRows(prior));
    LoadedIsUnique(prior);
    DecidedHoldsNewest(carried, clusters, decisions, "");
    SortKeepsUnique(entries, order);
    forall id
      ensures HoldsNewest(carried, clusters, decisions, next.approvals, id)
    {
      DecidedHoldsNewest(carried, clusters, decisions, id);
      SameHoldings(carried, clusters, decisions, entries, next.approvals, id);
    }
    forall id | Has(carried, id)
      ensures Has(next.approvals, id)
    {
      StillHas(carried, clusters, decisions, next.approvals, id);
    }
    NamedExactlyByDecisions(carried, clusters, decisions, next.approvals);
  }

  lemma SameHoldings(carried: seq<Entry>, clusters: seq<ReviewCluster>, decisions: seq<Decision>, a: seq<Entry>, b: seq<Entry>, id: string)
    requires HoldsNewest(carried, clusters, decisions, a, id) && forall e :: e in b <==> e in a
    ensures HoldsNewest(carried, clusters, decisions, b, id)
  {
  }

  lemma StillHas(carried: seq<Entry>, clusters: seq<ReviewCluster>, decisions: seq<Decision>, entries: seq<Entry>, id: string)
    requires HoldsNewest(carried, clusters, decisions, entries, id)
    requires Has(carried, id) || Newest(decisions, id).Some?
    ensures Has(entries, id)
  {
    NewestIs(decisions, id);
    if Newest(decisions, id).Some? {
      assert EntryFor(Newest(decisions, id).value, ClusterFor(clusters, id).value) in entries;
    }
  }

  lemma {:induction false} NewestIs(decisions: seq<Decision>, id: string)
    ensures Newest(decisions, id).Some? <==> exists d :: d in decisions && d.clusterId == id
    ensures Newest(decisions, id).Some? ==> Newest(decisions, id).value in decisions && Newest(decisions, id).value.clusterId == id
  {
    if decisions != [] {
      NewestIs(decisions[..|decisions| - 1], id);
      assert decisions == decisions[..|decisions| - 1] + [decisions[|decisions| - 1]];
    }
  }

  lemma NamedExactlyByDecisions(carried: seq<Entry>, clusters: seq<ReviewCluster>, decisions: seq<Decision>, entries: seq<Entry>)
    requires AllNamed(carried) && decisions != []
    requires forall id :: HoldsNewest(carried, clusters, decisions, entries, id)
    ensures entries != [] && (AllNamed(entries) <==> forall d :: d in decisions ==> d.clusterId != "")
  {
    hide HoldsNewest;
    NewestIs(decisions, "");
    NewestIs(decisions, decisions[0].clusterId);
    StillHas(carried, clusters, decisions, entries, decisions[0].clusterId);
    if Newest(decisions, "").Some? {
      StillHas(carried, clusters, decisions, entries, "");
    } else {
      NamelessOnlyCarried(carried, clusters, decisions, entries);
    }
  }

  lemma NamelessOnlyCarried(carried: seq<Entry>, clusters: seq<ReviewCluster>, decisions: seq<Decision>, entries: seq<Entry>)
    requires AllNamed(carried) && Newest(decisions, "").None? && HoldsNewest(carried, clusters, decisions, entries, "")
    ensures AllNamed(entries)
  {
    forall i | 0 <= i < |entries|
      ensures entries[i].clusterId != ""
    {
      assert entries[i] in entries;
    }
  }

  // ----- Approvals without an id -----

  /** The single approval of a version 1 file, which is stored without an id, is known as legacy_v1_001 from then on. */
  lemma VersionOneIsRenamed(approval: Entry)
    requires approval.clusterId == ""
    ensures Loads(Some(Version1(approval)))
    ensures Held(Some(Version1(approval))) == [Entry("legacy_v1_001", approval.content, CarriedFrom(approval.content))]
  {
    assert Decimal(1) == "1" && Padded(1) == "001";
    assert LegacyName(1) == "legacy_v1_001";
  }

  // ----- Runs -----

  /** One materialization of a run. */
  datatype Batch = Batch(clusters: seq<ReviewCluster>, decisions: seq<Decision>)

  /** What one batch leaves; one without decisions is skipped, a failing one leaves the file as it was. */
  function After(file: Option<Prior>, batch: Batch, order: Order): Option<Prior> {
    if batch.decisions == [] then file
    else
      match Bundle(file, batch.clusters, batch.decisions, order)
      case Err(_) => file
      case Ok(next) => Some(next)
  }

  predicate Writes(file: Option<Prior>, batch: Batch, order: Order) {
    batch.decisions != [] && Bundle(file, batch.clusters, batch.decisions, order).Ok?
  }

  /** The active file after a run. */
  function Active(prior: Option<Prior>, batches: seq<Batch>, order: Order): Option<Prior> {
    if batches == [] then prior
    else After(Active(prior, batches[..|batches| - 1], order), batches[|batches| - 1], order)
  }

  lemma AfterKeepsIds(file: Option<Prior>, batch: Batch, order: Order, id: string)
    requires Has(Held(file), id)
    ensures Has(Held(After(file, batch, order)), id)
  {
    hide Bundle, KeyUnique, HoldsNewest, LegacyName, Carried;
    if Writes(file, batch, order) {
      MaterializationKeepsIds(file, batch.clusters, batch.decisions, order);
      CarriedAreNamed(PriorRows(file));
      var next := Bundle(file, batch.clusters, batch.decisions, order).value;
      NamedIdIsHeld(next.approvals, id);
    }
  }

  /** An approval with an id keeps it when carried over. */
  lemma NamedIdIsHeld(rows: seq<Entry>, id: string)
    requires Has(rows, id) && id != ""
    ensures Has(Carried(rows), id)
  {
    hide LegacyName;
    var e :| e in rows && e.clusterId == id;
    var i :| 0 <= i < |rows| && rows[i] == e;
    assert Carried(rows)[i] in Carried(rows);
  }

  /** Over any run from any file, an id approved at some point stays approved. */
  lemma {:induction false} RunKeepsIds(prior: Option<Prior>, batches: seq<Batch>, order: Order, k: nat, id: string)
    requires k <= |batches| && Has(Held(Active(prior, batches[..k], order)), id)
    ensures Has(Held(Active(prior, batches, order)), id)
  {
    hide Held, After, Has;
    if k == |batches| {
      assert batches[..k] == batches;
    } else {
      var front := batches[..|batches| - 1];
      assert front[..k] == batches[..k];
      RunKeepsIds(prior, front, order, k, id);
      AfterKeepsIds(Active(prior, front, order), batches[|batches| - 1], order, id);
    }
  }

  /** The evidence the newest effective decision about an id was based on, over a whole run. */
  function NewestContent(prior: Option<Prior>, batches: seq<Batch>, order: Order, id: string): Option<string> {
    if batches == [] then None
    else
      var front, last := batches[..|batches| - 1], batches[|batches| - 1];
      var cluster := ClusterFor(last.clusters, id);
      if Writes(Active(prior, front, order), last, order) && Newest(last.decisions, id).Some? && cluster.Some?
      then Some(cluster.value.content) else NewestContent(prior, front, order, id)
  }

  /** Some batch of the run wrote the file. */
  predicate Rewritten(prior: Option<Prior>, batches: seq<Batch>, order: Order) {
    batches != [] &&
    (Rewritten(prior, batches[..|batches| - 1], order)
     || Writes(Active(prior, batches[..|batches| - 1], order), batches[|batches| - 1], order))
  }

  /** Exactly one approval has the id, and it rests on this content. */
  ghost predicate OnlyUnder(rows: seq<Entry>, id: string, content: string) {
    exists i :: IsOnly(rows, i, id, content)
  }

  ghost predicate IsOnly(rows: seq<Entry>, i: int, id: string, content: string) {
    && 0 <= i < |rows| && rows[i].clusterId == id && rows[i].content == content
    && forall j :: 0 <= j < |rows| && rows[j].clusterId == id ==> j == i
  }

  /**
   * The file after some batch wrote it: version 2 with unique ids, holding under an id exactly one approval with the evidence
   * of the newest decision about it, or without a decision just what the first file held.
   */
  ghost predicate RunHolds(prior: Option<Prior>, file: Option<Prior>, id: string, newest: Option<string>) {
    && file.Some? && file.value.Version2? && KeyUnique(file.value.approvals)
    && match newest
       case Some(content) => OnlyUnder(file.value.approvals, id, content)
       case None => forall content :: HasContent(file.value.approvals, id, content) <==> HasContent(Held(prior), id, content)
  }

  lemma UniqueIsOnly(rows: seq<Entry>, id: string, content: string)
    requires KeyUnique(rows)
    ensures OnlyUnder(rows, id, content) <==> HasContent(rows, id, content)
  {
    if e :| e in rows && e.clusterId == id && e.content == content {
      var i :| 0 <= i < |rows| && rows[i] == e;
      assert IsOnly(rows, i, id, content);
    }
    if OnlyUnder(rows, id, content) {
      var i :| IsOnly(rows, i, id, content);
      assert rows[i] in rows;
    }
  }

  /** A decided id holds the evidence of its newest decision, an undecided one what was held before. */
  lemma ContentAfter(carried: seq<Entry>, clusters: seq<ReviewCluster>, decisions: seq<Decision>, entries: seq<Entry>, id: string, content: string)
    requires HoldsNewest(carried, clusters, decisions, entries, id)
    ensures Newest(decisions, id).Some? ==> ClusterFor(clusters, id).Some?
    ensures HasContent(entries, id, content) <==>
      if Newest(decisions, id).Some? then content == ClusterFor(clusters, id).value.content else HasContent(carried, id, content)
  {
    NewestIs(decisions, id);
    if Newest(decisions, id).Some? {
      assert EntryFor(Newest(decisions, id).value, ClusterFor(clusters, id).value) in entries;
    }
  }

  lemma WriteHolds(prior: Option<Prior>, earlier: Option<Prior>, batch: Batch, order: Order, id: string, newest: Option<string>)
    requires Writes(earlier, batch, order)
    requires (earlier == prior && newest.None?) || RunHolds(prior, earlier, id, newest)
    ensures Newest(batch.decisions, id).Some? ==> ClusterFor(batch.clusters, id).Some?
    ensures RunHolds(prior, After(earlier, batch, order), id,
                     if Newest(batch.decisions, id).Some? then Some(ClusterFor(batch.clusters, id).value.content) else newest)
  {
    hide Bundle, KeyUnique, HoldsNewest, LegacyName, Carried, Newest, ClusterFor, OnlyUnder, HasContent;
    MaterializationKeepsIds(earlier, batch.clusters, batch.decisions, order);
    var rows := Bundle(earlier, batch.clusters, batch.decisions, order).value.approvals;
    LoadsWhenWritten(earlier, batch, order);
    ContentAfter(Held(earlier), batch.clusters, batch.decisions, rows, id, "");
    forall content
      ensures HasContent(rows, id, content) <==>
        if Newest(batch.decisions, id).Some? then content == ClusterFor(batch.clusters, id).value.content
        else HasContent(Held(earlier), id, content)
      ensures OnlyUnder(rows, id, content) <==> HasContent(rows, id, content)
    {
      ContentAfter(Held(earlier), batch.clusters, batch.decisions, rows, id, content);
      UniqueIsOnly(rows, id, content);
    }
    if RunHolds(prior, earlier, id, newest) {
      NamedAreCarried(earlier.value.approvals);
      forall content
        ensures OnlyUnder(earlier.value.approvals, id, content) <==> HasContent(earlier.value.approvals, id, content)
      {
        UniqueIsOnly(earlier.value.approvals, id, content);
      }
    }
  }

  lemma LoadsWhenWritten(earlier: Option<Prior>, batch: Batch, order: Order)
    requires Writes(earlier, batch, order)
    ensures Loads(earlier)
  {
  }

  /** Over any run from any file, an id holds the evidence of the newest effective decision about it, exactly once. */
  lemma {:induction false} RunHoldsNewest(prior: Option<Prior>, batches: seq<Batch>, order: Order, id: string)
    ensures var file := Active(prior, batches, order);
      var newest := NewestContent(prior, batches, order, id);
      if Rewritten(prior, batches, order) then RunHolds(prior, file, id, newest) else file == prior && newest.None?
  {
    hide RunHolds, Bundle, Newest, ClusterFor;
    if batches != [] {
      var front, last := batches[..|batches| - 1], batches[|batches| - 1];
      RunHoldsNewest(prior, front, order, id);
      if Writes(Active(prior, front, order), last, order) {
        WriteHolds(prior, Active(prior, front, order), last, order, id, NewestContent(prior, front, order, id));
      }
    }
  }

  /** Once a decision without a cluster id is stored, no batch can write the file any more. */
  lemma {:induction false} NamelessDecisionIsFinal(prior: Option<Prior>, clusters: seq<ReviewCluster>, decisions: seq<Decision>, order: Order,
                                                   batches: seq<Batch>)
    requires Bundle(prior, clusters, decisions, order).Ok?
    requires exists d :: d in decisions && d.clusterId == ""
    ensures var stored := Some(Bundle(prior, clusters, decisions, order).value);
      Active(stored, batches, order) == stored && !Rewritten(stored, batches, order)
  {
    hide Decided, HoldsNewest, Loads;
    MaterializationKeepsIds(prior, clusters, decisions, order);
    if batches != [] {
      NamelessDecisionIsFinal(prior, clusters, decisions, order, batches[..|batches| - 1]);
    }
  }

  // ----- The order written -----

  lemma SortOnce(prior: Option<Prior>, clusters: seq<ReviewCluster>, decisions: seq<Decision>, order: Order)
    requires Bundle(prior, clusters, decisions, order).Ok?
    ensures Bundle(prior, clusters, decisions, order).value.Version2?
    ensures Bundle(prior, clusters, decisions, order).value.approvals == Sort(Decided(Carried(PriorRows(prior)), clusters, decisions).value, order)
  {
    hide Decided, Carried, Sort;
  }

  /** The approvals of a written file are in the order given, whatever it is. */
  lemma WrittenInOrder(prior: Option<Prior>, clusters: seq<ReviewCluster>, decisions: seq<Decision>, order: Order)
    requires Bundle(prior, clusters, decisions, order).Ok? && TotalPreorder(order)
    ensures Bundle(prior, clusters, decisions, order).value.Version2?
    ensures SortedBy(Bundle(prior, clusters, decisions, order).value.approvals, order)
  {
    SortOnce(prior, clusters, decisions, order);
    SortSorts(Decided(Carried(PriorRows(prior)), clusters, decisions).value, order);
  }
}
