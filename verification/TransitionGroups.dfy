/** Grouping proposal rows that repeat one text over touching frames: first fit, and when it finds the connected components. */
module TransitionGroups {
  import opened Prelude
  import opened Text
  import opened Phase2Rows

  function WithoutSpaces(s: string): string {
    if s == "" then "" else (if IsSpace(s[0]) then "" else [s[0]]) + WithoutSpaces(s[1..])
  }

  /** The text rows are compared by. */
  function TextOf(row: ProposalRow): string { WithoutSpaces(row.suggested) }

  function Low(s: Span): int { Min(s.start, s.end) }

  function High(s: Span): int { Max(s.start, s.end) }

  predicate SpansTouch(a: Span, b: Span) { Low(a) <= High(b) + 1 && Low(b) <= High(a) + 1 }

  predicate Touch(a: ProposalRow, b: ProposalRow) {
    exists i, j :: 0 <= i < |a.assets| && 0 <= j < |b.assets| && SpansTouch(a.assets[i], b.assets[j])
  }

  /** Two rows that belong together: one text, touching frames. */
  predicate Joined(rows: seq<ProposalRow>, i: nat, j: nat)
    requires i < |rows| && j < |rows|
  {
    TextOf(rows[i]) == TextOf(rows[j]) && Touch(rows[i], rows[j])
  }

  lemma JoinedIsSymmetric(rows: seq<ProposalRow>, i: nat, j: nat)
    requires i < |rows| && j < |rows| && Joined(rows, i, j)
    ensures Joined(rows, j, i)
  {
    var a, b := rows[i], rows[j];
    var k, l :| 0 <= k < |a.assets| && 0 <= l < |b.assets| && SpansTouch(a.assets[k], b.assets[l]);
    assert SpansTouch(b.assets[l], a.assets[k]);
  }

  /** A group holds the positions of its rows, in order. */
  datatype Group = Group(text: string, members: seq<nat>)

  predicate InRange(rows: seq<ProposalRow>, groups: seq<Group>) {
    forall g, k :: 0 <= g < |groups| && 0 <= k < |groups[g].members| ==> groups[g].members[k] < |rows|
  }

  predicate Fits(rows: seq<ProposalRow>, group: Group, i: nat)
    requires i < |rows| && forall k :: 0 <= k < |group.members| ==> group.members[k] < |rows|
  {
    group.text == TextOf(rows[i]) && exists k :: 0 <= k < |group.members| && Touch(rows[group.members[k]], rows[i])
  }

  function FirstFit(rows: seq<ProposalRow>, groups: seq<Group>, i: nat): (g: nat)
    requires i < |rows| && InRange(rows, groups)
    ensures g <= |groups| && (g < |groups| ==> Fits(rows, groups[g], i))
    ensures forall h :: 0 <= h < g ==> !Fits(rows, groups[h], i)
  {
    if groups == [] || Fits(rows, groups[0], i) then 0 else 1 + FirstFit(rows, groups[1..], i)
  }

  function Place(rows: seq<ProposalRow>, groups: seq<Group>, i: nat): (placed: seq<Group>)
    requires i < |rows| && InRange(rows, groups)
    ensures InRange(rows, placed)
  {
    var g := FirstFit(rows, groups, i);
    if TextOf(rows[i]) == "" then groups
    else if g < |groups| then groups[g := groups[g].(members := groups[g].members + [i])]
    else groups + [Group(TextOf(rows[i]), [i])]
  }

  /** The groups of the first `n` rows. */
  function Grouped(rows: seq<ProposalRow>, n: nat): (groups: seq<Group>)
    requires n <= |rows|
    ensures InRange(rows, groups)
  {
    if n == 0 then [] else Place(rows, Grouped(rows, n - 1), n - 1)
  }

  function IdsOf(rows: seq<ProposalRow>, members: seq<nat>): seq<string>
    requires forall k :: 0 <= k < |members| ==> members[k] < |rows|
  {
    if members == [] then [] else IdsOf(rows, members[..|members| - 1]) + [rows[members[|members| - 1]].contentId]
  }

  function RefsOf(rows: seq<ProposalRow>, members: seq<nat>): seq<string>
    requires forall k :: 0 <= k < |members| ==> members[k] < |rows|
  {
    if members == [] then [] else RefsOf(rows, members[..|members| - 1]) + rows[members[|members| - 1]].geometryRefs
  }

  /** The groups offered for merging are those of at least two rows. */
  function Offered(rows: seq<ProposalRow>, groups: seq<Group>): seq<MergeGroup>
    requires InRange(rows, groups)
  {
    if groups == [] then []
    else
      var last := groups[|groups| - 1];
      Offered(rows, groups[..|groups| - 1])
      + (if |last.members| > 1
         then [MergeGroup(rows[last.members[0]].contentId, IdsOf(rows, last.members), RefsOf(rows, last.members), rows[last.members[0]].suggested)]
         else [])
  }

  function MergeGroups(rows: seq<ProposalRow>): seq<MergeGroup> { Offered(rows, Grouped(rows, |rows|)) }

  method TransitionMergeGroups(rows: seq<ProposalRow>) returns (offered: seq<MergeGroup>)
    ensures offered == MergeGroups(rows)
  {
    hide Grouped, TextOf, Fits;
    var groups := GroupRows(rows);
    offered := [];
    var k := 0;
    while k < |groups|
      invariant 0 <= k <= |groups|
      invariant offered == Offered(rows, groups[..k])
    {
      assert groups[..k + 1][..k] == groups[..k];
      var members := groups[k].members;
      if |members| > 1 {
        offered := offered + [MergeGroup(rows[members[0]].contentId, IdsOf(rows, members), RefsOf(rows, members), rows[members[0]].suggested)];
      }
      k := k + 1;
    }
    assert groups[..k] == groups;
  }

  method GroupRows(rows: seq<ProposalRow>) returns (groups: seq<Group>)
    ensures groups == Grouped(rows, |rows|)
  {
    hide TextOf, Place;
    groups := [];
    var i := 0;
    while i < |rows|
      invariant 0 <= i <= |rows|
      invariant groups == Grouped(rows, i)
    {
      groups := PlaceRow(rows, groups, i);
      i := i + 1;
    }
  }

  /** The first group with the row's text that the row touches takes it in; otherwise it opens a group. */
  method PlaceRow(rows: seq<ProposalRow>, groups: seq<Group>, i: nat) returns (placed: seq<Group>)
    requires i < |rows| && InRange(rows, groups)
    ensures placed == Place(rows, groups, i)
  {
    hide TextOf, Fits;
    if TextOf(rows[i]) == "" {
      return groups;
    }
    var g := 0;
    while g < |groups| && !Fits(rows, groups[g], i)
      invariant 0 <= g <= |groups|
      invariant forall h :: 0 <= h < g ==> !Fits(rows, groups[h], i)
    {
      g := g + 1;
    }
    FirstFitIs(rows, groups, i, g);
    placed := if g == |groups| then groups + [Group(TextOf(rows[i]), [i])] else groups[g := groups[g].(members := groups[g].members + [i])];
  }

  lemma FirstFitIs(rows: seq<ProposalRow>, groups: seq<Group>, i: nat, g: nat)
    requires i < |rows| && InRange(rows, groups) && g <= |groups|
    requires forall h :: 0 <= h < g ==> !Fits(rows, groups[h], i)
    requires g < |groups| ==> Fits(rows, groups[g], i)
    ensures FirstFit(rows, groups, i) == g
  {
    hide Fits;
    var f := FirstFit(rows, groups, i);
  }

  // ----- What is offered -----

  /** The offer lists the ids and the geometry of its group in order, under the id and with the text of the first row. */
  ghost predicate OffersGroup(rows: seq<ProposalRow>, members: seq<nat>, m: MergeGroup)
    requires forall k :: 0 <= k < |members| ==> members[k] < |rows|
  {
    && |members| >= 2 && |m.sourceIds| == |members|
    && (forall k :: 0 <= k < |members| ==> m.sourceIds[k] == rows[members[k]].contentId)
    && m.canonicalId == m.sourceIds[0] && m.suggested == rows[members[0]].suggested
    && (forall ref :: ref in m.geometryRefs <==> exists k :: 0 <= k < |members| && ref in rows[members[k]].geometryRefs)
  }

  lemma {:induction false} IdsAre(rows: seq<ProposalRow>, members: seq<nat>)
    requires forall k :: 0 <= k < |members| ==> members[k] < |rows|
    ensures |IdsOf(rows, members)| == |members|
    ensures forall k :: 0 <= k < |members| ==> IdsOf(rows, members)[k] == rows[members[k]].contentId
  {
    if members != [] {
      IdsAre(rows, members[..|members| - 1]);
    }
  }

  lemma {:induction false} RefsAre(rows: seq<ProposalRow>, members: seq<nat>, ref: string)
    requires forall k :: 0 <= k < |members| ==> members[k] < |rows|
    ensures ref in RefsOf(rows, members) <==> exists k :: 0 <= k < |members| && ref in rows[members[k]].geometryRefs
  {
    if members != [] {
      var n := |members| - 1;
      RefsAre(rows, members[..n], ref);
      assert forall k :: 0 <= k < n ==> members[..n][k] == members[k];
    }
  }

  /** The groups of at least two rows. */
  function Plural(groups: seq<Group>): seq<Group> {
    if groups == [] then []
    else Plural(groups[..|groups| - 1]) + (if |groups[|groups| - 1].members| >= 2 then [groups[|groups| - 1]] else [])
  }

  lemma {:induction false} PluralAre(groups: seq<Group>, g: Group)
    ensures g in Plural(groups) <==> g in groups && |g.members| >= 2
  {
    if groups != [] {
      PluralAre(groups[..|groups| - 1], g);
      assert groups == groups[..|groups| - 1] + [groups[|groups| - 1]];
    }
  }

  lemma PluralInRange(rows: seq<ProposalRow>, groups: seq<Group>)
    requires InRange(rows, groups)
    ensures InRange(rows, Plural(groups))
  {
    hide Plural;
    var plural := Plural(groups);
    forall g, k | 0 <= g < |plural| && 0 <= k < |plural[g].members|
      ensures plural[g].members[k] < |rows|
    {
      PluralAre(groups, plural[g]);
      assert plural[g] in plural;
      var h :| 0 <= h < |groups| && groups[h] == plural[g];
    }
  }

  /** One offer per group of at least two rows, in order. */
  lemma {:induction false} OfferedAre(rows: seq<ProposalRow>, groups: seq<Group>)
    requires InRange(rows, groups)
    ensures InRange(rows, Plural(groups)) && |Offered(rows, groups)| == |Plural(groups)|
    ensures forall i :: 0 <= i < |Plural(groups)| ==> OffersGroup(rows, Plural(groups)[i].members, Offered(rows, groups)[i])
  {
    PluralInRange(rows, groups);
    if groups != [] {
      var n := |groups| - 1;
      OfferedAre(rows, groups[..n]);
      var members := groups[n].members;
      hide IdsOf, RefsOf, OffersGroup;
      if |members| >= 2 {
        OfferOf(rows, members);
      }
    }
  }

  lemma OfferOf(rows: seq<ProposalRow>, members: seq<nat>)
    requires |members| >= 2 && forall k :: 0 <= k < |members| ==> members[k] < |rows|
    ensures OffersGroup(rows, members, MergeGroup(rows[members[0]].contentId, IdsOf(rows, members), RefsOf(rows, members),
                                                  rows[members[0]].suggested))
  {
    IdsAre(rows, members);
    forall ref
      ensures ref in RefsOf(rows, members) <==> exists k :: 0 <= k < |members| && ref in rows[members[k]].geometryRefs
    {
      RefsAre(rows, members, ref);
    }
    hide IdsOf, RefsOf;
  }

  // ----- The groups partition the rows -----

  /** Each member after the first touches an earlier one, and all share the group's non-empty text. */
  predicate SoundGroup(rows: seq<ProposalRow>, group: Group, n: nat)
    requires n <= |rows|
  {
    && group.members != [] && group.text != ""
    && (forall k :: 0 <= k < |group.members| ==> group.members[k] < n && TextOf(rows[group.members[k]]) == group.text)
    && (forall k, l :: 0 <= k < l < |group.members| ==> group.members[k] < group.members[l])
    && (forall k :: 0 < k < |group.members| ==> HasEarlier(rows, group.members, k))
  }

  predicate HasEarlier(rows: seq<ProposalRow>, members: seq<nat>, k: nat)
    requires k < |members|
  {
    exists j :: 0 <= j < k && members[j] < |rows| && members[k] < |rows| && Touch(rows[members[j]], rows[members[k]])
  }

  ghost predicate Holds(groups: seq<Group>, g: nat, i: nat) { g < |groups| && i in groups[g].members }

  ghost predicate Partition(rows: seq<ProposalRow>, groups: seq<Group>, n: nat)
    requires n <= |rows|
  {
    && (forall g :: 0 <= g < |groups| ==> SoundGroup(rows, groups[g], n))
    && (forall g: nat, h: nat, i :: Holds(groups, g, i) && Holds(groups, h, i) ==> g == h)
    && (forall i :: 0 <= i < n && TextOf(rows[i]) != "" ==> exists g: nat :: Holds(groups, g, i))
  }

  lemma GrownGroup(rows: seq<ProposalRow>, group: Group, n: nat)
    requires n < |rows| && SoundGroup(rows, group, n) && TextOf(rows[n]) != ""
    requires group.text == TextOf(rows[n]) && exists k :: 0 <= k < |group.members| && Touch(rows[group.members[k]], rows[n])
    ensures SoundGroup(rows, group.(members := group.members + [n]), n + 1)
  {
    hide TextOf, Touch;
    var members := group.members + [n];
    forall k | 0 < k < |members|
      ensures HasEarlier(rows, members, k)
    {
      if k < |group.members| {
        assert HasEarlier(rows, group.members, k);
        var j :| 0 <= j < k && Touch(rows[group.members[j]], rows[group.members[k]]);
        assert members[j] == group.members[j] && members[k] == group.members[k];
      } else {
        var j :| 0 <= j < |group.members| && Touch(rows[group.members[j]], rows[n]);
        assert members[j] == group.members[j];
      }
    }
  }

  lemma LaterGroup(rows: seq<ProposalRow>, group: Group, n: nat)
    requires n < |rows| && SoundGroup(rows, group, n)
    ensures SoundGroup(rows, group, n + 1)
  {
    hide TextOf, Touch;
  }

  /** The groups of the first rows partition those with text, and each one is connected. */
  lemma {:induction false} GroupsPartition(rows: seq<ProposalRow>, n: nat)
    requires n <= |rows|
    ensures Partition(rows, Grouped(rows, n), n)
  {
    hide Partition, Place, TextOf, Touch;
    if n == 0 {
      NoGroups(rows);
    } else {
      GroupsPartition(rows, n - 1);
      PlaceKeepsPartition(rows, Grouped(rows, n - 1), n - 1);
    }
  }

  lemma NoGroups(rows: seq<ProposalRow>)
    ensures Partition(rows, [], 0)
  {
  }

  lemma PlaceKeepsPartition(rows: seq<ProposalRow>, groups: seq<Group>, n: nat)
    requires n < |rows| && InRange(rows, groups) && Partition(rows, groups, n)
    ensures Partition(rows, Place(rows, groups, n), n + 1)
  {
    hide TextOf, Touch;
    var placed := Place(rows, groups, n);
    PlacedMembers(rows, groups, n);
    forall g | 0 <= g < |placed|
      ensures SoundGroup(rows, placed[g], n + 1)
    {
      if g < |groups| {
        LaterGroup(rows, groups[g], n);
        if TextOf(rows[n]) != "" && g == FirstFit(rows, groups, n) {
          GrownGroup(rows, groups[g], n);
        }
      }
    }
    forall i | 0 <= i < n + 1 && TextOf(rows[i]) != ""
      ensures exists g: nat :: Holds(placed, g, i)
    {
      if i < n {
        var g :| Holds(groups, g, i);
        assert Holds(placed, g, i);
      } else {
        assert Holds(placed, FirstFit(rows, groups, n), n);
      }
    }
  }

  lemma MembersAreBelow(rows: seq<ProposalRow>, groups: seq<Group>, n: nat, g: nat, i: nat)
    requires n <= |rows| && Partition(rows, groups, n)
    ensures Holds(groups, g, i) ==> i < n && TextOf(rows[i]) == groups[g].text != ""
  {
    hide TextOf;
    if g < |groups| {
      assert SoundGroup(rows, groups[g], n);
    }
  }

  /** Placing a row adds it to one group and changes nothing else. */
  lemma PlacedMembers(rows: seq<ProposalRow>, groups: seq<Group>, n: nat)
    requires n < |rows| && InRange(rows, groups) && Partition(rows, groups, n)
    ensures var placed := Place(rows, groups, n);
      && (forall g: nat, i :: Holds(placed, g, i) <==>
            Holds(groups, g, i) || (i == n && TextOf(rows[n]) != "" && g == FirstFit(rows, groups, n)))
      && (forall g: nat :: !Holds(groups, g, n))
  {
    hide TextOf, Touch;
    var placed := Place(rows, groups, n);
    var at := FirstFit(rows, groups, n);
    forall g: nat
      ensures !Holds(groups, g, n)
    {
      MembersAreBelow(rows, groups, n, g, n);
    }
    if TextOf(rows[n]) != "" && at < |groups| {
      assert forall i :: i in placed[at].members <==> i in groups[at].members || i == n;
    }
  }

  // ----- Connected components -----

  /** A chain of joined rows among the first `n`. */
  predicate Chain(rows: seq<ProposalRow>, n: nat, p: seq<nat>)
    requires n <= |rows|
  {
    && p != [] && (forall k :: 0 <= k < |p| ==> p[k] < n)
    && (forall k :: 0 <= k < |p| - 1 ==> Joined(rows, p[k], p[k + 1]))
  }

  ghost predicate Connected(rows: seq<ProposalRow>, n: nat, a: nat, b: nat)
    requires n <= |rows|
  {
    exists p :: Chain(rows, n, p) && p[0] == a && p[|p| - 1] == b
  }

  lemma ChainConnects(rows: seq<ProposalRow>, n: nat, p: seq<nat>)
    requires n <= |rows| && Chain(rows, n, p)
    ensures Connected(rows, n, p[0], p[|p| - 1])
  {
  }

  lemma ConnectedToSelf(rows: seq<ProposalRow>, n: nat, a: nat)
    requires n <= |rows| && a < n
    ensures Connected(rows, n, a, a)
  {
    assert Chain(rows, n, [a]);
  }

  lemma ConnectedExtends(rows: seq<ProposalRow>, n: nat, a: nat, b: nat, c: nat)
    requires n <= |rows| && b < n && c < n && Connected(rows, n, a, b) && Joined(rows, b, c)
    ensures Connected(rows, n, a, c)
  {
    hide Joined;
    var p :| Chain(rows, n, p) && p[0] == a && p[|p| - 1] == b;
    var q := p + [c];
    forall k | 0 <= k < |q| - 1
      ensures Joined(rows, q[k], q[k + 1])
    {
      if k == |p| - 1 {
        assert q[k] == b && q[k + 1] == c;
      }
    }
    ChainConnects(rows, n, q);
  }

  lemma {:induction false} ConnectedJoins(rows: seq<ProposalRow>, n: nat, a: nat, p: seq<nat>)
    requires n <= |rows| && Chain(rows, n, p) && Connected(rows, n, a, p[0])
    ensures Connected(rows, n, a, p[|p| - 1])
    decreases |p|
  {
    hide Joined, Connected;
    if |p| > 1 {
      ConnectedExtends(rows, n, a, p[0], p[1]);
      ConnectedJoins(rows, n, a, p[1..]);
    }
  }

  lemma {:induction false} ConnectedBack(rows: seq<ProposalRow>, n: nat, p: seq<nat>)
    requires n <= |rows| && Chain(rows, n, p)
    ensures Connected(rows, n, p[|p| - 1], p[0])
    decreases |p|
  {
    hide Joined, Connected;
    ConnectedToSelf(rows, n, p[0]);
    if |p| > 1 {
      ConnectedBack(rows, n, p[1..]);
      JoinedIsSymmetric(rows, p[0], p[1]);
      ConnectedExtends(rows, n, p[|p| - 1], p[1], p[0]);
    }
  }

  /** Connection is an equivalence on the rows it covers. */
  lemma ConnectedIsEquivalence(rows: seq<ProposalRow>, n: nat, a: nat, b: nat, c: nat)
    requires n <= |rows| && Connected(rows, n, a, b)
    ensures Connected(rows, n, b, a)
    ensures Connected(rows, n, b, c) ==> Connected(rows, n, a, c)
  {
    var p :| Chain(rows, n, p) && p[0] == a && p[|p| - 1] == b;
    ConnectedBack(rows, n, p);
    if Connected(rows, n, b, c) {
      var q :| Chain(rows, n, q) && q[0] == b && q[|q| - 1] == c;
      ConnectedJoins(rows, n, a, q);
    }
  }

  ghost predicate SameGroup(groups: seq<Group>, a: nat, b: nat) {
    exists g: nat :: Holds(groups, g, a) && Holds(groups, g, b)
  }

  lemma {:induction false} GroupIsConnected(rows: seq<ProposalRow>, group: Group, n: nat, k: nat)
    requires n <= |rows| && SoundGroup(rows, group, n) && k < |group.members|
    ensures Connected(rows, n, group.members[0], group.members[k])
  {
    hide TextOf, Touch, Connected;
    var members := group.members;
    if k == 0 {
      ConnectedToSelf(rows, n, members[0]);
    } else {
      assert HasEarlier(rows, members, k);
      var j :| 0 <= j < k && Touch(rows[members[j]], rows[members[k]]);
      GroupIsConnected(rows, group, n, j);
      ConnectedExtends(rows, n, members[0], members[j], members[k]);
    }
  }

  /** Rows of one group are always connected. */
  lemma SameGroupIsConnected(rows: seq<ProposalRow>, n: nat, a: nat, b: nat)
    requires n <= |rows| && SameGroup(Grouped(rows, n), a, b)
    ensures Connected(rows, n, a, b)
  {
    hide Connected, Grouped;
    var groups := Grouped(rows, n);
    GroupsPartition(rows, n);
    var g: nat :| Holds(groups, g, a) && Holds(groups, g, b);
    var group := groups[g];
    var k :| 0 <= k < |group.members| && group.members[k] == a;
    var l :| 0 <= l < |group.members| && group.members[l] == b;
    hide SoundGroup;
    GroupIsConnected(rows, group, n, k);
    GroupIsConnected(rows, group, n, l);
    ConnectedIsEquivalence(rows, n, group.members[0], a, a);
    ConnectedIsEquivalence(rows, n, a, group.members[0], b);
  }

  /** No row of one group is joined to a row of another. */
  ghost predicate NoCrossing(rows: seq<ProposalRow>, n: nat)
    requires n <= |rows|
  {
    forall i, j :: 0 <= i < n && 0 <= j < n && TextOf(rows[i]) != "" && Joined(rows, i, j) ==> SameGroup(Grouped(rows, n), i, j)
  }

  lemma SameGroupIsTransitive(rows: seq<ProposalRow>, groups: seq<Group>, n: nat, a: nat, b: nat, c: nat)
    requires n <= |rows| && Partition(rows, groups, n) && SameGroup(groups, a, b) && SameGroup(groups, b, c)
    ensures SameGroup(groups, a, c)
  {
    hide SoundGroup, TextOf;
    var g: nat :| Holds(groups, g, a) && Holds(groups, g, b);
    var h: nat :| Holds(groups, h, b) && Holds(groups, h, c);
    assert g == h;
  }

  lemma {:induction false} ChainStaysInGroup(rows: seq<ProposalRow>, n: nat, p: seq<nat>)
    requires n <= |rows| && NoCrossing(rows, n) && Chain(rows, n, p) && TextOf(rows[p[0]]) != ""
    ensures SameGroup(Grouped(rows, n), p[0], p[|p| - 1])
    decreases |p|
  {
    hide Grouped, SameGroup, Touch, TextOf;
    if |p| == 1 {
      InOwnGroup(rows, n, p[0]);
    } else {
      assert Joined(rows, p[0], p[1]);
      ChainStaysInGroup(rows, n, p[1..]);
      GroupsPartition(rows, n);
      SameGroupIsTransitive(rows, Grouped(rows, n), n, p[0], p[1], p[|p| - 1]);
    }
  }

  lemma InOwnGroup(rows: seq<ProposalRow>, n: nat, a: nat)
    requires n <= |rows| && a < n && TextOf(rows[a]) != ""
    ensures SameGroup(Grouped(rows, n), a, a)
  {
    hide SoundGroup, Grouped, TextOf;
    GroupsPartition(rows, n);
    var g: nat :| Holds(Grouped(rows, n), g, a);
  }

  /** The groups are the connected components. */
  ghost predicate GroupsAreComponents(rows: seq<ProposalRow>, n: nat)
    requires n <= |rows|
  {
    forall a, b :: 0 <= a < n && 0 <= b < n && TextOf(rows[a]) != "" ==> (SameGroup(Grouped(rows, n), a, b) <==> Connected(rows, n, a, b))
  }

  lemma NoCrossingMeansComponents(rows: seq<ProposalRow>, n: nat)
    requires n <= |rows| && NoCrossing(rows, n)
    ensures GroupsAreComponents(rows, n)
  {
    forall a, b | 0 <= a < n && 0 <= b < n && TextOf(rows[a]) != ""
      ensures SameGroup(Grouped(rows, n), a, b) <==> Connected(rows, n, a, b)
    {
      if SameGroup(Grouped(rows, n), a, b) {
        SameGroupIsConnected(rows, n, a, b);
      }
      if Connected(rows, n, a, b) {
        var p :| Chain(rows, n, p) && p[0] == a && p[|p| - 1] == b;
        ChainStaysInGroup(rows, n, p);
      }
    }
  }

  /** The earlier rows joined to row `i` were already connected among themselves. */
  ghost predicate BridgesNothing(rows: seq<ProposalRow>, i: nat)
    requires i < |rows|
  {
    forall j, k :: 0 <= j < i && 0 <= k < i && TextOf(rows[i]) != "" && Joined(rows, j, i) && Joined(rows, k, i) ==> Connected(rows, i, j, k)
  }

  ghost predicate NoBridges(rows: seq<ProposalRow>, n: nat)
    requires n <= |rows|
  {
    forall i :: 0 <= i < n ==> BridgesNothing(rows, i)
  }

  lemma PlaceKeepsSameGroup(rows: seq<ProposalRow>, n: nat, a: nat, b: nat)
    requires n < |rows| && a < n && b < n
    ensures SameGroup(Grouped(rows, n), a, b) <==> SameGroup(Grouped(rows, n + 1), a, b)
  {
    hide TextOf, Partition, Place, Grouped;
    var groups := Grouped(rows, n);
    GroupsPartition(rows, n);
    PlacedMembers(rows, groups, n);
    GroupedStep(rows, n);
    var placed := Grouped(rows, n + 1);
    if SameGroup(groups, a, b) {
      var g: nat :| Holds(groups, g, a) && Holds(groups, g, b);
      assert Holds(placed, g, a) && Holds(placed, g, b);
    }
    if SameGroup(placed, a, b) {
      var g: nat :| Holds(placed, g, a) && Holds(placed, g, b);
      assert Holds(groups, g, a) && Holds(groups, g, b);
    }
  }

  lemma GroupedStep(rows: seq<ProposalRow>, n: nat)
    requires n < |rows|
    ensures Grouped(rows, n + 1) == Place(rows, Grouped(rows, n), n)
  {
  }

  lemma {:induction false} SameGroupIsStable(rows: seq<ProposalRow>, i: nat, n: nat, a: nat, b: nat)
    requires i <= n <= |rows| && a < i && b < i
    ensures SameGroup(Grouped(rows, i), a, b) <==> SameGroup(Grouped(rows, n), a, b)
    decreases n
  {
    hide SameGroup, Grouped;
    if i < n {
      SameGroupIsStable(rows, i, n - 1, a, b);
      PlaceKeepsSameGroup(rows, n - 1, a, b);
    }
  }

  /** A row is put together with every earlier row it is joined to, when those share a group. */
  lemma JoinsItsGroup(rows: seq<ProposalRow>, n: nat, j: nat)
    requires n < |rows| && j < n && Joined(rows, j, n) && TextOf(rows[n]) != ""
    requires forall k :: 0 <= k < n && Joined(rows, k, n) ==> SameGroup(Grouped(rows, n), j, k)
    ensures SameGroup(Grouped(rows, n + 1), j, n)
  {
    hide Partition, Place, Grouped, TextOf, Touch;
    var groups := Grouped(rows, n);
    GroupsPartition(rows, n);
    PlacedMembers(rows, groups, n);
    GroupedStep(rows, n);
    InOwnGroup(rows, n, j);
    var g: nat :| Holds(groups, g, j);
    var k := HostMember(rows, groups, n, g, j);
    var h: nat :| Holds(groups, h, j) && Holds(groups, h, k);
    OneGroup(rows, groups, n, j, g, h);
    var host := FirstFit(rows, groups, n);
    OneGroup(rows, groups, n, k, h, host);
    assert Holds(Grouped(rows, n + 1), host, j) && Holds(Grouped(rows, n + 1), host, n);
  }

  lemma OneGroup(rows: seq<ProposalRow>, groups: seq<Group>, n: nat, i: nat, g: nat, h: nat)
    requires n <= |rows| && Partition(rows, groups, n) && Holds(groups, g, i) && Holds(groups, h, i)
    ensures g == h
  {
    hide SoundGroup, TextOf;
  }

  /** The group that takes the row in holds a row joined to it. */
  lemma HostMember(rows: seq<ProposalRow>, groups: seq<Group>, n: nat, g: nat, j: nat) returns (k: nat)
    requires n < |rows| && InRange(rows, groups) && Partition(rows, groups, n)
    requires Holds(groups, g, j) && j < n && Joined(rows, j, n)
    ensures k < n && Joined(rows, k, n) && Holds(groups, FirstFit(rows, groups, n), k)
  {
    hide TextOf, Touch;
    MembersAreBelow(rows, groups, n, g, j);
    var l :| 0 <= l < |groups[g].members| && groups[g].members[l] == j;
    assert Fits(rows, groups[g], n);
    var host := FirstFit(rows, groups, n);
    assert host < |groups|;
    var m :| 0 <= m < |groups[host].members| && Touch(rows[groups[host].members[m]], rows[n]);
    k := groups[host].members[m];
    assert Holds(groups, host, k);
    MembersAreBelow(rows, groups, n, host, k);
  }

  lemma {:induction false} NoBridgesMeansNoCrossing(rows: seq<ProposalRow>, n: nat)
    requires n <= |rows| && NoBridges(rows, n)
    ensures NoCrossing(rows, n)
  {
    hide Joined, SameGroup, Grouped, TextOf, BridgesNothing;
    if n > 0 {
      NoBridgesMeansNoCrossing(rows, n - 1);
      forall i, j | 0 <= i < n && 0 <= j < n && TextOf(rows[i]) != "" && Joined(rows, i, j)
        ensures SameGroup(Grouped(rows, n), i, j)
      {
        JoinedIsSymmetric(rows, i, j);
        SharedText(rows, i, j);
        if i < n - 1 && j < n - 1 {
          PlaceKeepsSameGroup(rows, n - 1, i, j);
        } else if i == j {
          InOwnGroup(rows, n, i);
        } else if i < n - 1 {
          NewRowJoins(rows, n - 1, i);
        } else {
          NewRowJoins(rows, n - 1, j);
          SameGroupIsSymmetric(Grouped(rows, n), j, i);
        }
      }
    }
  }

  lemma SharedText(rows: seq<ProposalRow>, i: nat, j: nat)
    requires i < |rows| && j < |rows| && Joined(rows, i, j)
    ensures TextOf(rows[i]) == TextOf(rows[j])
  {
  }

  lemma SameGroupIsSymmetric(groups: seq<Group>, a: nat, b: nat)
    requires SameGroup(groups, a, b)
    ensures SameGroup(groups, b, a)
  {
  }

  lemma NewRowJoins(rows: seq<ProposalRow>, n: nat, j: nat)
    requires n < |rows| && NoCrossing(rows, n) && BridgesNothing(rows, n)
    requires j < n && Joined(rows, j, n) && TextOf(rows[n]) != ""
    ensures SameGroup(Grouped(rows, n + 1), j, n)
  {
    NoCrossingMeansComponents(rows, n);
    SharedText(rows, j, n);
    hide NoCrossing, Joined, SameGroup, Grouped, TextOf, Connected;
    forall k | 0 <= k < n && Joined(rows, k, n)
      ensures SameGroup(Grouped(rows, n), j, k)
    {
      assert Connected(rows, n, j, k);
    }
    JoinsItsGroup(rows, n, j);
  }

  lemma ComponentsMeanNoBridges(rows: seq<ProposalRow>, n: nat)
    requires n <= |rows| && GroupsAreComponents(rows, n)
    ensures NoBridges(rows, n)
  {
    hide Joined, SameGroup, Grouped, TextOf, Connected;
    forall i, j, k | 0 <= i < n && 0 <= j < i && 0 <= k < i && TextOf(rows[i]) != "" && Joined(rows, j, i) && Joined(rows, k, i)
      ensures Connected(rows, i, j, k)
    {
      JoinedIsSymmetric(rows, k, i);
      SharedText(rows, j, i);
      ConnectedToSelf(rows, n, j);
      ConnectedExtends(rows, n, j, j, i);
      ConnectedExtends(rows, n, j, i, k);
      SameGroupIsStable(rows, i, n, j, k);
      SameGroupIsConnected(rows, i, j, k);
    }
  }

  /**
   * First fit yields exactly the connected components of "same text, touching frames" when and only when no row joins
   * earlier rows that were not yet connected.
   */
  lemma WhenGroupsAreComponents(rows: seq<ProposalRow>)
    ensures GroupsAreComponents(rows, |rows|) <==> NoBridges(rows, |rows|)
  {
    hide GroupsAreComponents, NoBridges;
    if NoBridges(rows, |rows|) {
      NoBridgesMeansNoCrossing(rows, |rows|);
      NoCrossingMeansComponents(rows, |rows|);
    }
    if GroupsAreComponents(rows, |rows|) {
      ComponentsMeanNoBridges(rows, |rows|);
    }
  }

  /** Rows have one span at most, and those that have one come in order of its first frame. */
  predicate SortedSingleSpans(rows: seq<ProposalRow>) {
    && (forall i :: 0 <= i < |rows| ==> |rows[i].assets| <= 1)
    && (forall i, j :: 0 <= i < j < |rows| && |rows[i].assets| == 1 && |rows[j].assets| == 1 ==> Low(rows[i].assets[0]) <= Low(rows[j].assets[0]))
  }

  lemma SortedRowsJoin(rows: seq<ProposalRow>, j: nat, k: nat, i: nat)
    requires SortedSingleSpans(rows) && j < k < i < |rows| && Joined(rows, j, i) && Joined(rows, k, i)
    ensures Joined(rows, j, k)
  {
    hide TextOf;
    assert SpansTouch(rows[j].assets[0], rows[k].assets[0]);
  }

  /** For sorted rows of one span each the groups are the connected components. */
  lemma SortedRowsFormComponents(rows: seq<ProposalRow>)
    requires SortedSingleSpans(rows)
    ensures GroupsAreComponents(rows, |rows|)
  {
    hide Joined, TextOf, Connected, GroupsAreComponents;
    forall i, j, k | 0 <= i < |rows| && 0 <= j < i && 0 <= k < i && Joined(rows, j, i) && Joined(rows, k, i)
      ensures Connected(rows, i, j, k)
    {
      ConnectedToSelf(rows, i, j);
      if j < k {
        SortedRowsJoin(rows, j, k, i);
        ConnectedExtends(rows, i, j, j, k);
      } else if k < j {
        SortedRowsJoin(rows, k, j, i);
        JoinedIsSymmetric(rows, k, j);
        ConnectedExtends(rows, i, j, j, k);
      }
    }
    WhenGroupsAreComponents(rows);
  }

  lemma {:induction false} UnjoinedStaysApart(rows: seq<ProposalRow>, p: seq<nat>)
    requires 2 <= |rows| && !Joined(rows, 0, 1) && Chain(rows, 2, p) && p[0] == 0
    ensures p[|p| - 1] == 0
    decreases |p|
  {
    hide Joined;
    if |p| > 1 {
      assert Joined(rows, p[0], p[1]);
      assert p[1] == 0;
      UnjoinedStaysApart(rows, p[1..]);
    }
  }

  /** The failing family: a third row that touches two rows which do not touch each other leaves them in separate groups. */
  lemma BridgingRowIsMissed(rows: seq<ProposalRow>)
    requires |rows| == 3 && TextOf(rows[2]) != ""
    requires Joined(rows, 0, 2) && Joined(rows, 1, 2) && !Joined(rows, 0, 1)
    ensures !GroupsAreComponents(rows, 3)
  {
    hide Joined, GroupsAreComponents, TextOf;
    WhenGroupsAreComponents(rows);
    if NoBridges(rows, 3) {
      assert BridgesNothing(rows, 2);
      var p :| Chain(rows, 2, p) && p[0] == 0 && p[|p| - 1] == 1;
      UnjoinedStaysApart(rows, p);
    }
  }

  function SpanRow(id: string, start: int, end: int): ProposalRow {
    ProposalRow(id, [], [Span(start, end)], "x", "x", APPROVE, REVIEW_REQUIRED, "")
  }

  /** Frames 0, 10 and then 1 to 9: one component, two groups. */
  lemma BridgingRowExists()
    ensures !GroupsAreComponents([SpanRow("a", 0, 0), SpanRow("b", 10, 10), SpanRow("c", 1, 9)], 3)
  {
    var rows := [SpanRow("a", 0, 0), SpanRow("b", 10, 10), SpanRow("c", 1, 9)];
    assert TextOf(rows[2]) == "x" by {
      assert "x"[1..] == "";
    }
    assert SpansTouch(rows[0].assets[0], rows[2].assets[0]) && SpansTouch(rows[1].assets[0], rows[2].assets[0]);
    BridgingRowIsMissed(rows);
  }
}
