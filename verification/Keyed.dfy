/** A list read into a dictionary: keys in order of first appearance, each with the value of its last appearance. */
module Keyed {
  import opened Prelude

  function Keys(ids: seq<string>): seq<string> {
    if ids == [] then []
    else
      var front, last := Keys(ids[..|ids| - 1]), ids[|ids| - 1];
      if last in front then front else front + [last]
  }

  /** Position of the last appearance of a listed key. */
  function LastOf(ids: seq<string>, id: string): (i: nat)
    requires id in ids
    ensures i < |ids| && ids[i] == id
    ensures forall k :: i < k < |ids| ==> ids[k] != id
  {
    if ids[|ids| - 1] == id then |ids| - 1
    else
      assert ids == ids[..|ids| - 1] + [ids[|ids| - 1]];
      LastOf(ids[..|ids| - 1], id)
  }

  /** Without repeats every position is the last of its key. */
  lemma LastOfDistinct(ids: seq<string>, i: nat)
    requires Distinct(ids) && i < |ids|
    ensures LastOf(ids, ids[i]) == i
  {
    hide LastOf;
    var k := LastOf(ids, ids[i]);
    assert ids[k] == ids[i];
  }

  lemma {:induction false} KeysAreDistinct(ids: seq<string>)
    ensures Distinct(Keys(ids))
    ensures forall id :: id in Keys(ids) <==> id in ids
    ensures |Keys(ids)| <= |ids|
  {
    if ids != [] {
      KeysAreDistinct(ids[..|ids| - 1]);
      assert ids == ids[..|ids| - 1] + [ids[|ids| - 1]];
    }
  }

  /** Without repeats the dictionary is the list itself. */
  lemma {:induction false} KeysOfDistinct(ids: seq<string>)
    requires Distinct(ids)
    ensures Keys(ids) == ids
  {
    if ids != [] {
      KeysOfDistinct(ids[..|ids| - 1]);
      assert ids == ids[..|ids| - 1] + [ids[|ids| - 1]];
    }
  }

  /** As many keys as rows means no key repeats. */
  lemma {:induction false} FullKeysAreDistinct(ids: seq<string>)
    ensures |Keys(ids)| == |ids| <==> Distinct(ids)
  {
    if ids != [] {
      var front, last := ids[..|ids| - 1], ids[|ids| - 1];
      assert ids == front + [last];
      FullKeysAreDistinct(front);
      KeysAreDistinct(front);
      if Distinct(ids) {
        assert Distinct(front) && last !in front;
      }
      if |Keys(ids)| == |ids| {
        assert last !in Keys(front);
      }
    }
  }
}
