/** Probing source frames through the memo cache, and growing a window until the frames just outside are misses. */
module SourceScan {
  import opened Prelude
  import opened Geometry
  import opened FrameScan

  /** A source box that agreed with the residual on one frame. */
  datatype Match = Match(frame: int, text: string, confidence: real, geometry: Box)

  type Cache = map<int, Option<Match>>

  predicate InVideo(f: int, frameCount: int) { 0 <= f < frameCount }

  /** Every cached frame lies in the video and its match carries that frame and a valid box. */
  ghost predicate SoundCache(cache: Cache, frameCount: int) {
    && (forall f :: f in cache ==> InVideo(f, frameCount))
    && (forall f :: f in cache && cache[f].Some? ==> SoundMatch(cache[f].value, f))
  }

  ghost predicate SoundMatch(m: Match, f: int) { m.frame == f && ValidBox(m.geometry) }

  /** The cache after probing `wanted`: frames of the video not yet cached are filled in, nothing else changes. */
  ghost function Probed(cache: Cache, sees: int -> Option<Match>, frameCount: int, wanted: set<int>): Cache {
    cache + map f | f in wanted && InVideo(f, frameCount) && f !in cache :: sees(f)
  }

  /** The cache after the fill loop has stored one answer per listed frame. */
  ghost function Filled(cache: Cache, sees: int -> Option<Match>, frames: seq<int>): Cache {
    if frames == [] then cache
    else
      var last := frames[|frames| - 1];
      Filled(cache, sees, frames[..|frames| - 1])[last := sees(last)]
  }

  lemma FillingNothing(cache: Cache, sees: int -> Option<Match>)
    ensures Filled(cache, sees, []) == cache
  {
  }

  lemma FillingOne(cache: Cache, sees: int -> Option<Match>, frames: seq<int>, k: nat)
    requires k < |frames|
    ensures Filled(cache, sees, frames[..k + 1]) == Filled(cache, sees, frames[..k])[frames[k] := sees(frames[k])]
  {
    assert frames[..k + 1][..k] == frames[..k];
  }

  lemma {:induction false} FilledLooksUp(cache: Cache, sees: int -> Option<Match>, frames: seq<int>)
    ensures Filled(cache, sees, frames).Keys == cache.Keys + Elements(frames)
    ensures forall f :: f in Filled(cache, sees, frames) ==>
      Filled(cache, sees, frames)[f] == if f in frames then sees(f) else cache[f]
  {
    if frames != [] {
      FilledLooksUp(cache, sees, frames[..|frames| - 1]);
      assert frames == frames[..|frames| - 1] + [frames[|frames| - 1]];
    }
  }

  /** What `source_hit` answers for `f` when the cache is `cache`. */
  ghost predicate Hit(cache: Cache, sees: int -> Option<Match>, frameCount: int, f: int) {
    InVideo(f, frameCount) && (if f in cache then cache[f].Some? else sees(f).Some?)
  }

  lemma ProbingNothing(cache: Cache, sees: int -> Option<Match>, frameCount: int)
    ensures Probed(cache, sees, frameCount, Elements([])) == cache
  {
  }

  lemma ProbingComposes(cache: Cache, sees: int -> Option<Match>, frameCount: int, a: set<int>, b: set<int>)
    ensures Probed(Probed(cache, sees, frameCount, a), sees, frameCount, b) == Probed(cache, sees, frameCount, a + b)
  {
  }

  // ----- Cached hits in frame order -----

  /** The cached matches of the frames from `lo` to `hi`, in frame order. */
  function CachedHits(cache: Cache, lo: int, hi: int): seq<Match>
    decreases hi - lo
  {
    if hi < lo then []
    else (if lo in cache && cache[lo].Some? then [cache[lo].value] else []) + CachedHits(cache, lo + 1, hi)
  }

  function CachedCount(cache: Cache, lo: int, hi: int): nat
    decreases hi - lo
  {
    if hi < lo then 0 else (if lo in cache then 1 else 0) + CachedCount(cache, lo + 1, hi)
  }

  function FramesOf(matches: seq<Match>): (r: seq<int>)
    ensures |r| == |matches|
  {
    if matches == [] then [] else [matches[0].frame] + FramesOf(matches[1..])
  }

  lemma {:induction false} FramesOfMembers(matches: seq<Match>)
    ensures forall f :: f in FramesOf(matches) <==> exists m :: m in matches && m.frame == f
    ensures forall i :: 0 <= i < |matches| ==> FramesOf(matches)[i] == matches[i].frame
  {
    if matches != [] {
      FramesOfMembers(matches[1..]);
      assert matches == [matches[0]] + matches[1..];
    }
  }

  predicate CachedHit(cache: Cache, f: int) { f in cache && cache[f].Some? }

  lemma {:induction false} CachedHitsFrames(cache: Cache, frameCount: int, lo: int, hi: int, f: int)
    requires SoundCache(cache, frameCount)
    ensures f in FramesOf(CachedHits(cache, lo, hi)) <==> lo <= f <= hi && CachedHit(cache, f)
    decreases hi - lo
  {
    if lo <= hi {
      CachedHitsFrames(cache, frameCount, lo + 1, hi, f);
      CachedHitsStep(cache, frameCount, lo, hi);
    }
  }

  lemma CachedHitsStep(cache: Cache, frameCount: int, lo: int, hi: int)
    requires SoundCache(cache, frameCount) && lo <= hi
    ensures FramesOf(CachedHits(cache, lo, hi))
         == (if CachedHit(cache, lo) then [lo] else []) + FramesOf(CachedHits(cache, lo + 1, hi))
  {
    var rest := CachedHits(cache, lo + 1, hi);
    if CachedHit(cache, lo) {
      assert SoundMatch(cache[lo].value, lo);
      assert ([cache[lo].value] + rest)[1..] == rest;
    } else {
      assert [] + rest == rest;
    }
  }

  lemma {:induction false} CachedHitsValid(cache: Cache, frameCount: int, lo: int, hi: int)
    requires SoundCache(cache, frameCount)
    ensures forall m :: m in CachedHits(cache, lo, hi) ==> ValidBox(m.geometry)
    ensures |CachedHits(cache, lo, hi)| <= CachedCount(cache, lo, hi)
    decreases hi - lo
  {
    if lo <= hi {
      CachedHitsValid(cache, frameCount, lo + 1, hi);
    }
  }

  // ----- Growing a window -----

  /** The window grown by consecutive hits on both sides; just outside lies a miss or the end of the video. */
  ghost predicate MaximalExtension(hit: int -> bool, frameCount: int, start: int, end: int, grownStart: int, grownEnd: int) {
    && grownStart <= start && end <= grownEnd
    && (grownStart < start ==> 0 <= grownStart) && (forall f :: grownStart <= f < start ==> hit(f))
    && (end < grownEnd ==> grownEnd < frameCount) && (forall f :: end < f <= grownEnd ==> hit(f))
    && (grownStart > 0 ==> !hit(grownStart - 1))
    && (grownEnd < frameCount - 1 ==> !hit(grownEnd + 1))
  }

  lemma ExtensionIsUnique(hit: int -> bool, frameCount: int, start: int, end: int, a: int, b: int, a': int, b': int)
    requires MaximalExtension(hit, frameCount, start, end, a, b)
    requires MaximalExtension(hit, frameCount, start, end, a', b')
    ensures a == a' && b == b'
  {
  }

  /** Growing a grown window changes nothing. */
  lemma ExtensionIsIdempotent(hit: int -> bool, frameCount: int, start: int, end: int, a: int, b: int, a': int, b': int)
    requires MaximalExtension(hit, frameCount, start, end, a, b)
    requires MaximalExtension(hit, frameCount, a, b, a', b')
    ensures a' == a && b' == b
  {
    assert MaximalExtension(hit, frameCount, a, b, a, b);
    ExtensionIsUnique(hit, frameCount, a, b, a, b, a', b');
  }

  /** hi, hi - 1, ..., lo */
  function Down(hi: int, lo: int): seq<int>
    decreases hi - lo
  {
    if hi < lo then [] else Down(hi, lo + 1) + [lo]
  }

  /** lo, lo + 1, ..., hi */
  function Up(lo: int, hi: int): seq<int>
    decreases hi - lo
  {
    if hi < lo then [] else Up(lo, hi - 1) + [hi]
  }

  /** The frames a refinement looks at: the added ones, and at most one miss on each side. */
  function ProbesOf(start: int, end: int, frameCount: int, grownStart: int, grownEnd: int): seq<int> {
    Down(start - 1, Max(0, grownStart - 1)) + Up(end + 1, Min(frameCount - 1, grownEnd + 1))
  }

  datatype Refined = Refined(start: int, end: int, beforeConfirmed: bool, afterConfirmed: bool, probed: seq<int>)

  class SourceScanner {
    const frameCount: int
    /** What OCR of a decoded frame yields for this residual. */
    const probe: int -> Option<Match>
    /** Whether the frame loader returns the frame at all. */
    const loads: int -> bool
    var matchCache: Cache
    var frames: set<int>

    constructor (frameCount: int, probe: int -> Option<Match>, loads: int -> bool)
      requires forall f :: probe(f).Some? ==> SoundMatch(probe(f).value, f)
      ensures this.frameCount == frameCount && this.probe == probe && this.loads == loads
      ensures Valid() && matchCache == map[] && frames == {}
    {
      this.frameCount, this.probe, this.loads := frameCount, probe, loads;
      matchCache, frames := map[], {};
    }

    ghost predicate Valid()
      reads this
    {
      && (forall f :: probe(f).Some? ==> SoundMatch(probe(f).value, f))
      && SoundCache(matchCache, frameCount)
    }

    /** A frame the loader does not return never matches. */
    function Sees(f: int): Option<Match> {
      if loads(f) then probe(f) else None
    }

    ghost predicate IsHit(f: int)
      reads this
    {
      Hit(matchCache, Sees, frameCount, f)
    }

    /** The frames a scan has to decode that the loader returns. */
    ghost function Loaded(cache: Cache, frameIndices: seq<int>): set<int> {
      set f | f in frameIndices && InVideo(f, frameCount) && f !in cache && loads(f)
    }

    method ScanSourceFrames(frameIndices: seq<int>)
      requires Valid()
      modifies this
      ensures SoundCache(matchCache, frameCount)
      ensures Valid()
      ensures matchCache == Probed(old(matchCache), Sees, frameCount, Elements(frameIndices))
      ensures frames == old(frames) + Loaded(old(matchCache), frameIndices)
    {
      ghost var before := matchCache;
      var requested := Sorted(Fresh(frameIndices, matchCache.Keys, frameCount));
      FreshMembers(frameIndices, matchCache.Keys, frameCount);
      FilledIsProbed(before, frameIndices, requested);
      assert (set f | f in requested && loads(f)) == Loaded(before, frameIndices);
      hide *;
      frames := frames + set f | f in requested && loads(f);
      FillCache(requested);
    }

    /** Answers for the requested frames, in order. */
    method FillCache(requested: seq<int>)
      modifies `matchCache
      ensures matchCache == Filled(old(matchCache), Sees, requested)
    {
      hide *;
      FillingNothing(matchCache, Sees);
      var k := 0;
      while k < |requested|
        invariant 0 <= k <= |requested|
        invariant matchCache == Filled(old(matchCache), Sees, requested[..k])
      {
        matchCache := matchCache[requested[k] := Sees(requested[k])];
        FillingOne(old(matchCache), Sees, requested, k);
        k := k + 1;
      }
      assert requested[..k] == requested;
    }

    lemma FilledIsProbed(before: Cache, frameIndices: seq<int>, requested: seq<int>)
      requires SoundCache(before, frameCount)
      requires forall f :: probe(f).Some? ==> SoundMatch(probe(f).value, f)
      requires forall f :: f in requested <==> (f in frameIndices && InVideo(f, frameCount) && f !in before)
      ensures Filled(before, Sees, requested) == Probed(before, Sees, frameCount, Elements(frameIndices))
      ensures SoundCache(Filled(before, Sees, requested), frameCount)
    {
      FilledLooksUp(before, Sees, requested);
      var filled, probed := Filled(before, Sees, requested), Probed(before, Sees, frameCount, Elements(frameIndices));
      assert filled.Keys == probed.Keys;
      assert forall f :: f in filled ==> filled[f] == probed[f];
    }

    static function Fresh(frameIndices: seq<int>, cached: set<int>, frameCount: int): seq<int> {
      if frameIndices == [] then []
      else (if InVideo(frameIndices[0], frameCount) && frameIndices[0] !in cached then [frameIndices[0]] else [])
           + Fresh(frameIndices[1..], cached, frameCount)
    }

    static lemma {:induction false} FreshMembers(frameIndices: seq<int>, cached: set<int>, frameCount: int)
      ensures forall f :: f in Fresh(frameIndices, cached, frameCount) <==>
        (f in frameIndices && InVideo(f, frameCount) && f !in cached)
    {
      if frameIndices != [] {
        FreshMembers(frameIndices[1..], cached, frameCount);
        assert frameIndices == [frameIndices[0]] + frameIndices[1..];
      }
    }

    static function Sorted(requested: seq<int>): (r: seq<int>)
      ensures StrictlyAscending(r) && forall f :: f in r <==> f in requested
    {
      SortedDistinctIs(requested);
      SortedDistinct(requested)
    }

    method SourceHit(f: int) returns (hit: bool)
      requires Valid()
      modifies this
      ensures Valid()
      ensures hit == old(IsHit(f))
      ensures matchCache == Probed(old(matchCache), Sees, frameCount, {f})
      ensures frames >= old(frames)
    {
      ScanSourceFrames([f]);
      assert Elements([f]) == {f};
      hit := f in matchCache && matchCache[f].Some?;
    }

    /** Decodes one frame for the evidence crop, without probing it. */
    method LoadEvidence(f: int)
      requires Valid()
      modifies `frames
      ensures Valid()
      ensures frames == old(frames) + if loads(f) then {f} else {}
    {
      frames := frames + if loads(f) then {f} else {};
    }

    /** Records matches recovered from earlier evidence, over whatever the probe said. */
    method Seed(rows: seq<Match>)
      requires Valid()
      requires forall m :: m in rows ==> InVideo(m.frame, frameCount) && ValidBox(m.geometry)
      modifies this
      ensures Valid()
      ensures forall f :: f in matchCache <==> f in old(matchCache) || f in FramesOf(rows)
      ensures forall f :: f in matchCache ==>
        if f in FramesOf(rows) then matchCache[f].Some? && matchCache[f].value in rows
        else matchCache[f] == old(matchCache)[f]
      ensures frames == old(frames)
    {
      FramesOfMembers(rows);
      var i := 0;
      while i < |rows|
        invariant 0 <= i <= |rows|
        invariant frames == old(frames)
        invariant SoundCache(matchCache, frameCount)
        invariant forall f :: f in matchCache <==> f in old(matchCache) || f in FramesOf(rows)[..i]
        invariant forall f :: f in matchCache ==>
          if f in FramesOf(rows)[..i] then matchCache[f].Some? && matchCache[f].value in rows
          else matchCache[f] == old(matchCache)[f]
      {
        assert FramesOf(rows)[..i + 1] == FramesOf(rows)[..i] + [rows[i].frame];
        matchCache := matchCache[rows[i].frame := Some(rows[i])];
        i := i + 1;
      }
      assert FramesOf(rows)[..i] == FramesOf(rows);
    }

    /** One side: walks down from the window while frames hit. */
    method GrowStart(startFrame: int) returns (start: int, cursor: int, probed: seq<int>)
      requires Valid()
      modifies this
      ensures Valid() && frames >= old(frames)
      ensures start <= startFrame && (startFrame < 0 ==> start == startFrame && cursor < 0)
      ensures startFrame >= 0 ==> start >= 0 && cursor == start - 1
      ensures forall f :: start <= f < startFrame ==> f >= 0 && Hit(old(matchCache), Sees, frameCount, f)
      ensures start > 0 ==> !Hit(old(matchCache), Sees, frameCount, start - 1)
      ensures probed == Down(startFrame - 1, Max(0, start - 1))
      ensures matchCache == Probed(old(matchCache), Sees, frameCount, Elements(probed))
    {
      ghost var cache0 := matchCache;
      hide Probed, Hit, Elements, SoundCache, SoundMatch, Valid;
      ProbingNothing(cache0, Sees, frameCount);
      start, cursor, probed := startFrame, startFrame - 1, [];
      while cursor >= 0
        invariant start <= startFrame && cursor == start - 1
        invariant startFrame < 0 ==> start == startFrame
        invariant startFrame >= 0 ==> start >= 0
        invariant forall f :: start <= f < startFrame ==> f >= 0 && Hit(cache0, Sees, frameCount, f)
        invariant probed == Down(startFrame - 1, start)
        invariant Valid() && frames >= old(frames)
        invariant matchCache == Probed(cache0, Sees, frameCount, Elements(probed))
      {
        var hit := ProbeNext(cache0, probed, cursor);
        probed := probed + [cursor];
        if !hit {
          break;
        }
        start := cursor;
        cursor := cursor - 1;
      }
    }

    /** The other side: walks up from the window while frames hit. */
    method GrowEnd(endFrame: int) returns (end: int, cursor: int, probed: seq<int>)
      requires Valid()
      modifies this
      ensures Valid() && frames >= old(frames)
      ensures endFrame <= end && (endFrame >= frameCount ==> end == endFrame && cursor > frameCount)
      ensures endFrame < frameCount ==> end < frameCount && cursor == end + 1
      ensures forall f :: endFrame < f <= end ==> f < frameCount && Hit(old(matchCache), Sees, frameCount, f)
      ensures end < frameCount - 1 ==> !Hit(old(matchCache), Sees, frameCount, end + 1)
      ensures probed == Up(endFrame + 1, Min(frameCount - 1, end + 1))
      ensures matchCache == Probed(old(matchCache), Sees, frameCount, Elements(probed))
    {
      ghost var cache0 := matchCache;
      hide Probed, Hit, Elements, SoundCache, SoundMatch, Valid;
      ProbingNothing(cache0, Sees, frameCount);
      end, cursor, probed := endFrame, endFrame + 1, [];
      while cursor < frameCount
        invariant endFrame <= end && cursor == end + 1
        invariant endFrame >= frameCount ==> end == endFrame
        invariant endFrame < frameCount ==> end < frameCount
        invariant forall f :: endFrame < f <= end ==> f < frameCount && Hit(cache0, Sees, frameCount, f)
        invariant probed == Up(endFrame + 1, end)
        invariant Valid() && frames >= old(frames)
        invariant matchCache == Probed(cache0, Sees, frameCount, Elements(probed))
      {
        var hit := ProbeNext(cache0, probed, cursor);
        probed := probed + [cursor];
        if !hit {
          break;
        }
        end := cursor;
        cursor := cursor + 1;
      }
    }

    /** One more probe on top of those already made from `cache0`. */
    method ProbeNext(ghost cache0: Cache, ghost probed: seq<int>, f: int) returns (hit: bool)
      requires Valid() && matchCache == Probed(cache0, Sees, frameCount, Elements(probed))
      modifies this
      ensures Valid() && frames >= old(frames)
      ensures hit == Hit(cache0, Sees, frameCount, f)
      ensures matchCache == Probed(cache0, Sees, frameCount, Elements(probed + [f]))
    {
      ProbingComposes(cache0, Sees, frameCount, Elements(probed), {f});
      assert Elements(probed + [f]) == Elements(probed) + {f};
      hit := SourceHit(f);
    }

    /**
     * Grows the window to its maximal extension by hits. The flags say whether the boundary was confirmed; they are
     * true exactly when the given window starts, respectively ends, inside the video.
     */
    method RefineHitBoundaries(startFrame: int, endFrame: int) returns (r: Refined)
      requires Valid()
      modifies this
      ensures Valid() && frames >= old(frames)
      ensures startFrame < 0 ==> r.start == startFrame
      ensures endFrame >= frameCount ==> r.end == endFrame
      ensures MaximalExtension(f => Hit(old(matchCache), Sees, frameCount, f), frameCount, startFrame, endFrame, r.start, r.end)
      ensures r.beforeConfirmed <==> startFrame >= 0
      ensures r.afterConfirmed <==> endFrame < frameCount
      ensures r.probed == ProbesOf(startFrame, endFrame, frameCount, r.start, r.end)
      ensures matchCache == Probed(old(matchCache), Sees, frameCount, Elements(r.probed))
    {
      hide Probed, Hit, Elements, SoundCache, SoundMatch, Valid;
      ghost var cache0 := matchCache;
      var start, cursor, lower := GrowStart(startFrame);
      var beforeConfirmed := start == 0 || (cursor == start - 1 && cursor >= 0);
      ghost var cache1 := matchCache;
      var end, cursor', upper := GrowEnd(endFrame);
      var afterConfirmed := end == frameCount - 1 || (cursor' == end + 1 && cursor' < frameCount);
      HitsUnchanged(cache0, cache1, Elements(lower));
      ProbingComposes(cache0, Sees, frameCount, Elements(lower), Elements(upper));
      ElementsOfSum(lower, upper);
      r := Refined(start, end, beforeConfirmed, afterConfirmed, lower + upper);
    }

    lemma HitsUnchanged(cache0: Cache, cache1: Cache, wanted: set<int>)
      requires cache1 == Probed(cache0, Sees, frameCount, wanted)
      ensures forall f :: Hit(cache1, Sees, frameCount, f) == Hit(cache0, Sees, frameCount, f)
    {
    }
  }
}
