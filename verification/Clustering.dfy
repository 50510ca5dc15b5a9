/** Grouping residual detections: greedily by signature and overlap, and by the temporal objects shown for review. */
module Clustering {
  import opened Prelude
  import opened Text
  import opened Sorting
  import opened Geometry
  import opened ResidualEvidence

  /** The recognizer's view of a text: its digits and ideographs, and whether it holds an ideograph. */
  datatype Script = Script(signature: string -> string, containsCjk: string -> bool)

  datatype Group = Group(signature: string, anchor: Rect, members: seq<Detection>)

  function ByFrame(a: Detection, b: Detection): bool { a.frame <= b.frame }

  function Trimmed(d: Detection): Detection { d.(text := Strip(d.text)) }

  predicate Reviewable(script: Script, d: Detection) {
    var signature := script.signature(Strip(d.text));
    signature != "" && script.containsCjk(signature)
  }

  predicate Fits(group: Group, signature: string, rect: Rect) {
    group.signature == signature && Overlap(rect, group.anchor) >= 0.60
  }

  /** The first group the detection fits, or the number of groups. */
  function FirstFit(groups: seq<Group>, signature: string, rect: Rect): (i: nat)
    ensures i <= |groups|
    ensures i < |groups| ==> Fits(groups[i], signature, rect)
    ensures forall k :: 0 <= k < i ==> !Fits(groups[k], signature, rect)
  {
    if groups == [] || Fits(groups[0], signature, rect) then 0 else 1 + FirstFit(groups[1..], signature, rect)
  }

  function Place(groups: seq<Group>, d: Detection, signature: string, rect: Rect): seq<Group> {
    var i := FirstFit(groups, signature, rect);
    if i < |groups| then groups[i := groups[i].(members := groups[i].members + [d])]
    else groups + [Group(signature, rect, [d])]
  }

  /** The detections that reach the grouping, trimmed and in the order given. */
  function Kept(script: Script, ordered: seq<Detection>): seq<Detection> {
    if ordered == [] then []
    else
      var d := ordered[|ordered| - 1];
      Kept(script, ordered[..|ordered| - 1]) + (if Reviewable(script, d) then [Trimmed(d)] else [])
  }

  /** Greedy grouping of detections already in frame order. */
  function Grouped(script: Script, ordered: seq<Detection>): Result<seq<Group>, GeometryError> {
    if ordered == [] then Ok([])
    else
      var earlier := Grouped(script, ordered[..|ordered| - 1]);
      var d := ordered[|ordered| - 1];
      if earlier.Err? || !Reviewable(script, d) then earlier
      else
        match ReadRect(d.geometry)
        case Err(e) => Err(e)
        case Ok(rect) => Ok(Place(earlier.value, Trimmed(d), script.signature(Strip(d.text)), rect))
  }

  function Members(groups: seq<Group>): seq<Detection> {
    if groups == [] then [] else groups[0].members + Members(groups[1..])
  }

  method ClusterResidualDetections(script: Script, detections: seq<Detection>) returns (r: Result<seq<Group>, GeometryError>)
    ensures r == Grouped(script, Sort(detections, ByFrame))
  {
    var ordered := Sort(detections, ByFrame);
    SortSorts(detections, ByFrame);
    var grouped := GroupDetections(script, ordered);
    if grouped.Err? {
      return grouped;
    }
    GroupsAreSound(script, ordered);
    var sorted := SortMembers(script, grouped.value);
    r := Ok(sorted);
  }

  method GroupDetections(script: Script, ordered: seq<Detection>) returns (r: Result<seq<Group>, GeometryError>)
    ensures r == Grouped(script, ordered)
  {
    hide Place;
    var groups: seq<Group> := [];
    var i := 0;
    while i < |ordered|
      invariant 0 <= i <= |ordered|
      invariant Grouped(script, ordered[..i]) == Ok(groups)
    {
      var d := ordered[i];
      assert ordered[..i + 1][..i] == ordered[..i];
      var signature := script.signature(Strip(d.text));
      if signature != "" && script.containsCjk(signature) {
        var rect := ReadRect(d.geometry);
        if rect.Err? {
          GroupedFails(script, ordered, i + 1);
          return Err(rect.error);
        }
        groups := Place(groups, Trimmed(d), signature, rect.value);
      }
      i := i + 1;
    }
    assert ordered[..i] == ordered;
    r := Ok(groups);
  }

  /** The closing sort of each group; on sound groups it changes nothing. */
  method SortMembers(ghost script: Script, groups: seq<Group>) returns (sorted: seq<Group>)
    requires SoundGroups(script, groups)
    ensures sorted == groups
  {
    sorted := groups;
    var i := 0;
    while i < |sorted|
      invariant 0 <= i <= |sorted|
      invariant sorted == groups
    {
      assert SoundGroup(script, groups[i]);
      SortOfSorted(sorted[i].members, ByFrame);
      sorted := sorted[i := sorted[i].(members := Sort(sorted[i].members, ByFrame))];
      i := i + 1;
    }
  }

  lemma GroupedFails(script: Script, ordered: seq<Detection>, n: nat)
    requires n <= |ordered| && Grouped(script, ordered[..n]).Err?
    ensures Grouped(script, ordered) == Grouped(script, ordered[..n])
  {
    PrefixFails(t => Grouped(script, t), ordered, n);
  }

  /** A member carries the signature of its group and overlaps its anchor by at least 0.60. */
  predicate Belongs(script: Script, group: Group, d: Detection) {
    && script.signature(d.text) == group.signature
    && ReadRect(d.geometry).Ok?
    && Overlap(ReadRect(d.geometry).value, group.anchor) >= 0.60
  }

  ghost predicate SoundGroup(script: Script, group: Group) {
    && group.members != []
    && ReadRect(group.members[0].geometry) == Ok(group.anchor)
    && (forall k :: 0 <= k < |group.members| ==> Belongs(script, group, group.members[k]))
    && SortedBy(group.members, ByFrame)
  }

  /** No member of a later group fits an earlier one; in particular equal signatures mean anchors below 0.60. */
  ghost predicate FirstFitted(script: Script, earlier: Group, later: Group) {
    forall k :: 0 <= k < |later.members| && ReadRect(later.members[k].geometry).Ok?
      ==> !Fits(earlier, script.signature(later.members[k].text), ReadRect(later.members[k].geometry).value)
  }

  ghost predicate SoundGroups(script: Script, groups: seq<Group>) {
    && (forall i :: 0 <= i < |groups| ==> SoundGroup(script, groups[i]))
    && (forall i, j :: 0 <= i < j < |groups| ==> FirstFitted(script, groups[i], groups[j]))
  }

  lemma SelfOverlap(b: Box)
    requires ValidBox(b)
    ensures Overlap(Corners(b), Corners(b)) == 1.0
  {
    FullOverlapIsContainment(Corners(b), Corners(b));
  }

  lemma ReadRectIsProper(geometry: RawGeometry)
    requires ReadRect(geometry).Ok?
    ensures Overlap(ReadRect(geometry).value, ReadRect(geometry).value) == 1.0
  {
    SelfOverlap(ReadBox(geometry).value);
  }

  lemma PlaceIsSound(script: Script, groups: seq<Group>, d: Detection, rect: Rect)
    requires SoundGroups(script, groups) && ReadRect(d.geometry) == Ok(rect)
    requires forall i, k :: 0 <= i < |groups| && 0 <= k < |groups[i].members| ==> groups[i].members[k].frame <= d.frame
    ensures SoundGroups(script, Place(groups, d, script.signature(d.text), rect))
  {
    hide Overlap;
    var signature := script.signature(d.text);
    var i := FirstFit(groups, signature, rect);
    if i == |groups| {
      OpenedGroup(script, d, rect);
      assert forall k :: 0 <= k < |groups| ==> FirstFitted(script, groups[k], Group(signature, rect, [d]));
    } else {
      var grown := groups[i].(members := groups[i].members + [d]);
      GrownGroup(script, groups[i], d, rect);
      assert forall k :: 0 <= k < i ==> FirstFitted(script, groups[k], grown);
      assert forall k :: i < k < |groups| ==> FirstFitted(script, grown, groups[k]) by {
        assert forall k :: i < k < |groups| ==> FirstFitted(script, groups[i], groups[k]);
      }
      var placed := groups[i := grown];
      forall a, b | 0 <= a < b < |placed|
        ensures FirstFitted(script, placed[a], placed[b])
      {
        assert FirstFitted(script, groups[a], groups[b]);
      }
    }
  }

  lemma OpenedGroup(script: Script, d: Detection, rect: Rect)
    requires ReadRect(d.geometry) == Ok(rect)
    ensures SoundGroup(script, Group(script.signature(d.text), rect, [d]))
  {
  }

  lemma GrownGroup(script: Script, group: Group, d: Detection, rect: Rect)
    requires SoundGroup(script, group) && ReadRect(d.geometry) == Ok(rect)
    requires Fits(group, script.signature(d.text), rect)
    requires forall k :: 0 <= k < |group.members| ==> group.members[k].frame <= d.frame
    ensures SoundGroup(script, group.(members := group.members + [d]))
  {
  }

  lemma {:induction false} MembersOfSum(a: seq<Group>, b: seq<Group>)
    ensures Members(a + b) == Members(a) + Members(b)
  {
    if a == [] {
      assert a + b == b;
    } else {
      assert (a + b)[1..] == a[1..] + b;
      MembersOfSum(a[1..], b);
    }
  }

  lemma MembersOfOne(g: Group)
    ensures Members([g]) == g.members
  {
    assert [g][1..] == [];
  }

  lemma MembersOfPlace(groups: seq<Group>, d: Detection, i: nat)
    requires i < |groups|
    ensures multiset(Members(groups[i := groups[i].(members := groups[i].members + [d])])) == multiset(Members(groups)) + multiset{d}
  {
    hide Members;
    var before, given, after := groups[..i], groups[i], groups[i + 1..];
    var grown := given.(members := given.members + [d]);
    assert groups == before + ([given] + after) && groups[i := grown] == before + ([grown] + after);
    MembersOfSum(before, [given] + after);
    MembersOfSum(before, [grown] + after);
    MembersOfSum([given], after);
    MembersOfSum([grown], after);
    MembersOfOne(given);
    MembersOfOne(grown);
  }

  lemma MembersOfAppend(groups: seq<Group>, g: Group)
    ensures Members(groups + [g]) == Members(groups) + g.members
  {
    MembersOfSum(groups, [g]);
    MembersOfOne(g);
  }

  /**
   * The greedy clustering conserves the reviewable detections, keeps every member at overlap 0.60 or more with its
   * anchor and below 0.60 with every earlier anchor of the same signature, and already lists each group in frame order,
   * which is why the closing sort changes nothing. It fails exactly when a reviewable detection has no usable rectangle.
   */
  lemma GroupsAreSound(script: Script, ordered: seq<Detection>)
    requires SortedBy(ordered, ByFrame)
    ensures var r := Grouped(script, ordered);
      && (r.Err? <==> exists k :: 0 <= k < |ordered| && Unusable(script, ordered[k]))
      && (r.Ok? ==> SoundGroups(script, r.value))
      && (r.Ok? ==> multiset(Members(r.value)) == multiset(Kept(script, ordered)))
  {
    WhenGroupingFails(script, ordered);
    if Grouped(script, ordered).Ok? {
      GroupedIsSound(script, ordered);
    }
  }

  predicate Unusable(script: Script, d: Detection) { Reviewable(script, d) && ReadRect(d.geometry).Err? }

  lemma {:induction false} WhenGroupingFails(script: Script, ordered: seq<Detection>)
    ensures Grouped(script, ordered).Err? <==> exists k :: 0 <= k < |ordered| && Unusable(script, ordered[k])
  {
    hide Place, ReadRect, Reviewable;
    if ordered != [] {
      WhenGroupingFails(script, ordered[..|ordered| - 1]);
    }
  }

  lemma {:induction false} GroupedIsSound(script: Script, ordered: seq<Detection>)
    requires SortedBy(ordered, ByFrame) && Grouped(script, ordered).Ok?
    ensures SoundGroups(script, Grouped(script, ordered).value)
    ensures multiset(Members(Grouped(script, ordered).value)) == multiset(Kept(script, ordered))
  {
    hide SoundGroups, ReadRect, Reviewable, Place;
    if ordered != [] {
      var front, d := ordered[..|ordered| - 1], ordered[|ordered| - 1];
      assert SortedBy(front, ByFrame) && forall k :: 0 <= k < |front| ==> ByFrame(front[k], d);
      hide SortedBy;
      GroupedIsSound(script, front);
      if Reviewable(script, d) {
        GroupsStep(script, front, d, Grouped(script, front).value);
      }
    } else {
      NoGroups(script);
    }
  }

  lemma NoGroups(script: Script)
    ensures SoundGroups(script, [])
  {
  }

  lemma GroupsStep(script: Script, front: seq<Detection>, d: Detection, groups: seq<Group>)
    requires SoundGroups(script, groups) && multiset(Members(groups)) == multiset(Kept(script, front))
    requires forall k :: 0 <= k < |front| ==> front[k].frame <= d.frame
    requires ReadRect(d.geometry).Ok?
    ensures var placed := Place(groups, Trimmed(d), script.signature(Strip(d.text)), ReadRect(d.geometry).value);
      SoundGroups(script, placed) && multiset(Members(placed)) == multiset(Kept(script, front) + [Trimmed(d)])
  {
    hide SoundGroup, FirstFitted;
    var rect := ReadRect(d.geometry).value;
    var signature := script.signature(Strip(d.text));
    forall i, k | 0 <= i < |groups| && 0 <= k < |groups[i].members|
      ensures groups[i].members[k].frame <= d.frame
    {
      MemberOfGroups(groups, i, k);
      assert groups[i].members[k] in multiset(Kept(script, front));
      KeptFrames(script, front, d.frame);
    }
    PlaceIsSound(script, groups, Trimmed(d), rect);
    var i := FirstFit(groups, signature, rect);
    if i < |groups| {
      MembersOfPlace(groups, Trimmed(d), i);
    } else {
      MembersOfAppend(groups, Group(signature, rect, [Trimmed(d)]));
    }
  }

  lemma {:induction false} MemberOfGroups(groups: seq<Group>, i: nat, k: nat)
    requires i < |groups| && k < |groups[i].members|
    ensures groups[i].members[k] in multiset(Members(groups))
  {
    if i > 0 {
      MemberOfGroups(groups[1..], i - 1, k);
    }
    assert multiset(Members(groups)) == multiset(groups[0].members) + multiset(Members(groups[1..]));
  }

  lemma {:induction false} KeptFrames(script: Script, ordered: seq<Detection>, bound: int)
    requires forall k :: 0 <= k < |ordered| ==> ordered[k].frame <= bound
    ensures forall d :: d in Kept(script, ordered) ==> d.frame <= bound
  {
    if ordered != [] {
      KeptFrames(script, ordered[..|ordered| - 1], bound);
    }
  }

  lemma AnchorsApart(script: Script, groups: seq<Group>, i: nat, j: nat)
    requires SoundGroups(script, groups) && i < j < |groups| && groups[i].signature == groups[j].signature
    ensures Overlap(groups[j].anchor, groups[i].anchor) < 0.60
  {
    hide Overlap;
    assert FirstFitted(script, groups[i], groups[j]);
    assert SoundGroup(script, groups[j]);
    assert Belongs(script, groups[j], groups[j].members[0]);
  }

  lemma {:induction false} KeptOfSum(script: Script, a: seq<Detection>, b: seq<Detection>)
    ensures Kept(script, a + b) == Kept(script, a) + Kept(script, b)
  {
    if b != [] {
      assert (a + b)[..|a + b| - 1] == a + b[..|b| - 1];
      KeptOfSum(script, a, b[..|b| - 1]);
    } else {
      assert a + b == a;
    }
  }

  lemma {:induction false} KeptOfInsert(script: Script, d: Detection, s: seq<Detection>)
    ensures multiset(Kept(script, Insert(d, s, ByFrame))) == multiset(Kept(script, [d])) + multiset(Kept(script, s))
  {
    hide Kept;
    if s != [] && !ByFrame(d, s[0]) {
      var rest := s[1..];
      KeptOfInsert(script, d, rest);
      KeptOfSum(script, [s[0]], rest);
      KeptOfSum(script, [s[0]], Insert(d, rest, ByFrame));
      assert s == [s[0]] + rest;
    } else {
      KeptOfSum(script, [d], s);
    }
  }

  /** Sorting by frame loses no reviewable detection, so the groups conserve those of the input. */
  lemma {:induction false} KeptOfSort(script: Script, s: seq<Detection>)
    ensures multiset(Kept(script, Sort(s, ByFrame))) == multiset(Kept(script, s))
  {
    hide Kept, Insert;
    if s != [] {
      KeptOfSort(script, s[1..]);
      KeptOfInsert(script, s[0], Sort(s[1..], ByFrame));
      KeptOfSum(script, [s[0]], s[1..]);
      assert s == [s[0]] + s[1..];
    }
  }

  /** End to end: from any detections, sound groups holding exactly the reviewable ones. */
  lemma ClusteringConserves(script: Script, detections: seq<Detection>)
    ensures var r := Grouped(script, Sort(detections, ByFrame));
      r.Ok? ==> SoundGroups(script, r.value) && multiset(Members(r.value)) == multiset(Kept(script, detections))
  {
    SortSorts(detections, ByFrame);
    GroupsAreSound(script, Sort(detections, ByFrame));
    KeptOfSort(script, detections);
  }
}
