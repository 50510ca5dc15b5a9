/** The median of a list of reals, and of a list of boxes taken component by component. */
module Median {
  import opened Prelude
  import opened Geometry
  import opened Sorting

  function AtMost(a: real, b: real): bool { a <= b }

  function Ascending(values: seq<real>): (r: seq<real>)
    ensures |r| == |values|
  {
    Sort(values, AtMost)
  }

  function MedianOf(values: seq<real>): real
    requires values != []
  {
    var ordered := Ascending(values);
    var middle := |ordered| / 2;
    if |ordered| % 2 == 1 then ordered[middle] else (ordered[middle - 1] + ordered[middle]) / 2.0
  }

  function MedianBox(boxes: seq<Box>): Box
    requires boxes != []
  {
    Box(MedianOf(Map(boxes, (b: Box) => b.x)), MedianOf(Map(boxes, (b: Box) => b.y)),
        MedianOf(Map(boxes, (b: Box) => b.width)), MedianOf(Map(boxes, (b: Box) => b.height)))
  }

  lemma AscendingIsSorted(values: seq<real>)
    ensures SortedBy(Ascending(values), AtMost)
    ensures multiset(Ascending(values)) == multiset(values)
  {
    SortSorts(values, AtMost);
  }

  /** How many values are at least `v`. */
  ghost function CountFrom(s: seq<real>, v: real): nat {
    if s == [] then 0 else (if s[0] >= v then 1 else 0) + CountFrom(s[1..], v)
  }

  lemma {:induction false} CountInsert(x: real, s: seq<real>, v: real)
    ensures CountFrom(Insert(x, s, AtMost), v) == CountFrom([x] + s, v)
  {
    assert ([x] + s)[1..] == s;
    if s != [] && !AtMost(x, s[0]) {
      CountInsert(x, s[1..], v);
      assert ([x] + s[1..])[1..] == s[1..];
      assert ([s[0]] + Insert(x, s[1..], AtMost))[1..] == Insert(x, s[1..], AtMost);
    }
  }

  lemma {:induction false} CountSort(s: seq<real>, v: real)
    ensures CountFrom(Ascending(s), v) == CountFrom(s, v)
  {
    if s != [] {
      CountSort(s[1..], v);
      CountInsert(s[0], Ascending(s[1..]), v);
      assert ([s[0]] + Ascending(s[1..]))[1..] == Ascending(s[1..]);
    }
  }

  lemma {:induction false} CountFromPosition(s: seq<real>, k: nat)
    requires SortedBy(s, AtMost) && k < |s|
    ensures CountFrom(s, s[k]) >= |s| - k
  {
    if k == 0 {
      AllCount(s, s[0]);
    } else {
      CountFromPosition(s[1..], k - 1);
    }
  }

  lemma {:induction false} AllCount(s: seq<real>, v: real)
    requires forall i :: 0 <= i < |s| ==> v <= s[i]
    ensures CountFrom(s, v) == |s|
  {
    if s != [] {
      AllCount(s[1..], v);
    }
  }

  /** Two lists of one length whose counts together exceed it share an index. */
  lemma {:induction false} SharedIndex(a: seq<real>, b: seq<real>, v: real, w: real) returns (i: nat)
    requires |a| == |b| && CountFrom(a, v) + CountFrom(b, w) > |a|
    ensures i < |a| && a[i] >= v && b[i] >= w
  {
    if a[0] >= v && b[0] >= w {
      i := 0;
    } else {
      i := SharedIndex(a[1..], b[1..], v, w);
      i := i + 1;
    }
  }

  /** Opposite ranks: the k-th smallest of one list plus the k-th largest of the other is bounded by the pointwise bound. */
  lemma OppositeRanks(a: seq<real>, b: seq<real>, k: nat, bound: real)
    requires |a| == |b| && k < |a|
    requires forall i :: 0 <= i < |a| ==> a[i] + b[i] <= bound
    ensures Ascending(a)[k] + Ascending(b)[|a| - 1 - k] <= bound
  {
    var p, q := Ascending(a), Ascending(b);
    AscendingIsSorted(a);
    AscendingIsSorted(b);
    CountFromPosition(p, k);
    CountFromPosition(q, |a| - 1 - k);
    CountSort(a, p[k]);
    CountSort(b, q[|a| - 1 - k]);
    var i := SharedIndex(a, b, p[k], q[|a| - 1 - k]);
  }

  /** Medians of two lists keep any bound their elements keep pairwise, for odd and even lengths. */
  lemma MedianOfSum(a: seq<real>, b: seq<real>, bound: real)
    requires |a| == |b| && a != []
    requires forall i :: 0 <= i < |a| ==> a[i] + b[i] <= bound
    ensures MedianOf(a) + MedianOf(b) <= bound
  {
    var middle := |a| / 2;
    OppositeRanks(a, b, middle, bound);
    if |a| % 2 == 0 {
      OppositeRanks(a, b, middle - 1, bound);
    }
  }

  lemma MedianWithin(values: seq<real>, lo: real, hi: real)
    requires values != [] && forall v :: v in values ==> lo <= v <= hi
    ensures lo <= MedianOf(values) <= hi
  {
    var ordered := Ascending(values);
    forall i | 0 <= i < |ordered|
      ensures lo <= ordered[i] <= hi
    {
      SameMembers(values, AtMost, ordered[i]);
    }
  }

  /** The median splits the list: neither more than half lies strictly above it nor more than half strictly below. */
  lemma MedianSplits(values: seq<real>)
    requires values != []
    ensures 2 * CountFrom(values, MedianOf(values)) >= |values|
    ensures forall v :: v > MedianOf(values) ==> 2 * CountFrom(values, v) <= |values|
  {
    var ordered, n := Ascending(values), |values|;
    AscendingIsSorted(values);
    var m := MedianOf(values);
    var middle := n / 2;
    CountFromPosition(ordered, middle);
    CountSort(values, ordered[middle]);
    CountAntitone(values, m, ordered[middle]);
    forall v | v > m
      ensures 2 * CountFrom(values, v) <= n
    {
      CountSort(values, v);
      var below := if n % 2 == 1 then middle else middle - 1;
      CountAbove(ordered, below, v);
    }
  }

  lemma {:induction false} CountAntitone(s: seq<real>, v: real, w: real)
    requires v <= w
    ensures CountFrom(s, v) >= CountFrom(s, w)
  {
    if s != [] {
      CountAntitone(s[1..], v, w);
    }
  }

  lemma {:induction false} CountAbove(s: seq<real>, k: nat, v: real)
    requires SortedBy(s, AtMost) && k < |s| && s[k] < v
    ensures CountFrom(s, v) <= |s| - 1 - k
  {
    if k > 0 {
      CountAbove(s[1..], k - 1, v);
      assert s[0] <= s[k];
    } else {
      CountAtMostLength(s[1..], v);
    }
  }

  lemma {:induction false} CountAtMostLength(s: seq<real>, v: real)
    ensures CountFrom(s, v) <= |s|
  {
    if s != [] {
      CountAtMostLength(s[1..], v);
    }
  }

  /** The component-wise median of valid boxes is valid, so reading it back as a rectangle never fails. */
  lemma MedianBoxIsValid(boxes: seq<Box>)
    requires boxes != [] && forall b :: b in boxes ==> ValidBox(b)
    ensures ValidBox(MedianBox(boxes))
    ensures RectOf(MedianBox(boxes)).Ok?
  {
    var xs, ys := Map(boxes, (b: Box) => b.x), Map(boxes, (b: Box) => b.y);
    var ws, hs := Map(boxes, (b: Box) => b.width), Map(boxes, (b: Box) => b.height);
    assert forall i :: 0 <= i < |boxes| ==> ValidBox(boxes[i]);
    MedianWithin(xs, 0.0, 1.001);
    MedianWithin(ys, 0.0, 1.001);
    MedianPositive(ws);
    MedianPositive(hs);
    MedianOfSum(xs, ws, 1.001);
    MedianOfSum(ys, hs, 1.001);
  }

  lemma MedianPositive(values: seq<real>)
    requires values != [] && forall v :: v in values ==> v > 0.0
    ensures MedianOf(values) > 0.0
  {
    var ordered := Ascending(values);
    forall i | 0 <= i < |ordered|
      ensures ordered[i] > 0.0
    {
      SameMembers(values, AtMost, ordered[i]);
    }
  }

  /** When every box is the same, so is their median. */
  lemma MedianOfCopies(boxes: seq<Box>, box: Box)
    requires boxes != [] && forall i :: 0 <= i < |boxes| ==> boxes[i] == box
    ensures MedianBox(boxes) == box
  {
    MedianWithin(Map(boxes, (b: Box) => b.x), box.x, box.x);
    MedianWithin(Map(boxes, (b: Box) => b.y), box.y, box.y);
    MedianWithin(Map(boxes, (b: Box) => b.width), box.width, box.width);
    MedianWithin(Map(boxes, (b: Box) => b.height), box.height, box.height);
  }
}
