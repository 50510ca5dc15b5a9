/** Operator-reviewed texts reused for exact matches: the conflict-removing lookup, by crop digest and by Chinese text. */
module ReviewedAuthority {
  import opened Prelude
  import opened Text

  datatype Claim<V> = Claim(key: string, value: V)

  /** The lookup while it is filled: what is held, and the keys seen with two different texts. */
  datatype Registry<V> = Registry(held: map<string, V>, conflicted: set<string>)

  function Entered<V>(r: Registry<V>, claim: Claim<V>, textOf: V -> string): Registry<V> {
    if claim.key in r.held && textOf(r.held[claim.key]) != textOf(claim.value) then r.(conflicted := r.conflicted + {claim.key})
    else r.(held := r.held[claim.key := claim.value])
  }

  function Registered<V>(claims: seq<Claim<V>>, textOf: V -> string): Registry<V> {
    if claims == [] then Registry(map[], {})
    else Entered(Registered(claims[..|claims| - 1], textOf), claims[|claims| - 1], textOf)
  }

  function Settled<V>(r: Registry<V>): map<string, V> { r.held - r.conflicted }

  /** The declarative rule: somebody claims the key, and everybody who does gives this text. */
  ghost predicate Agreed<V(!new)>(claims: seq<Claim<V>>, textOf: V -> string, key: string, text: string) {
    && (exists v :: Claim(key, v) in claims)
    && (forall v :: Claim(key, v) in claims ==> textOf(v) == text)
  }

  /** What the registry knows about one key. */
  ghost predicate Tracks<V(!new)>(claims: seq<Claim<V>>, textOf: V -> string, r: Registry<V>, key: string) {
    && (key in r.held <==> exists v :: Claim(key, v) in claims)
    && (key in r.held ==> Claim(key, r.held[key]) in claims)
    && (key in r.conflicted <==> key in r.held && exists v :: Claim(key, v) in claims && textOf(v) != textOf(r.held[key]))
  }

  lemma {:induction false} RegistryTracks<V(!new)>(claims: seq<Claim<V>>, textOf: V -> string, key: string)
    ensures Tracks(claims, textOf, Registered(claims, textOf), key)
  {
    if claims != [] {
      var front, last := claims[..|claims| - 1], claims[|claims| - 1];
      RegistryTracks(front, textOf, key);
      assert forall c :: c in claims <==> c in front || c == last by {
        assert claims == front + [last];
      }
      var r := Registered(front, textOf);
      if last.key == key {
        assert Claim(key, last.value) in claims;
      }
      if key in r.held {
        assert Claim(key, r.held[key]) in front;
      }
    }
  }

  /** A key ends up with a text exactly when all its claims agree on that text. */
  lemma LookupIsAgreement<V(!new)>(claims: seq<Claim<V>>, textOf: V -> string, key: string, text: string)
    ensures var lookup := Settled(Registered(claims, textOf));
      (key in lookup && textOf(lookup[key]) == text) <==> Agreed(claims, textOf, key, text)
  {
    RegistryTracks(claims, textOf, key);
    hide Registered;
  }

  lemma SameTextAt<V(!new)>(a: seq<Claim<V>>, b: seq<Claim<V>>, textOf: V -> string, key: string)
    requires forall c :: c in a <==> c in b
    ensures var x, y := Settled(Registered(a, textOf)), Settled(Registered(b, textOf));
      key in x ==> key in y && textOf(y[key]) == textOf(x[key])
  {
    hide Registered, Settled;
    var x := Settled(Registered(a, textOf));
    if key in x {
      LookupIsAgreement(a, textOf, key, textOf(x[key]));
      LookupIsAgreement(b, textOf, key, textOf(x[key]));
    }
  }

  /** The texts do not depend on the order or the repetition of the claims. */
  lemma LookupIgnoresOrder<V(!new)>(a: seq<Claim<V>>, b: seq<Claim<V>>, textOf: V -> string)
    requires forall c :: c in a <==> c in b
    ensures SameTexts(Settled(Registered(a, textOf)), Settled(Registered(b, textOf)), textOf)
  {
    hide Registered, Settled;
    var x, y := Settled(Registered(a, textOf)), Settled(Registered(b, textOf));
    forall key
      ensures key in x ==> key in y && textOf(y[key]) == textOf(x[key])
      ensures key in y ==> key in x && textOf(y[key]) == textOf(x[key])
    {
      SameTextAt(a, b, textOf, key);
      SameTextAt(b, a, textOf, key);
    }
  }

  ghost predicate SameTexts<V>(x: map<string, V>, y: map<string, V>, textOf: V -> string) {
    x.Keys == y.Keys && forall key :: key in x ==> textOf(x[key]) == textOf(y[key])
  }

  datatype Approval = Approval(contentId: string, decision: string, text: string, reviewer: string, reviewedAt: string)

  predicate Decided(a: Approval) {
    && Upper(a.decision) in {"APPROVE", "EDIT"} && Strip(a.text) != ""
    && Strip(a.reviewer) != "" && Strip(a.reviewedAt) != ""
  }

  // ----- By crop digest -----

  datatype Reviewed = Reviewed(contentId: string, text: string, decision: string, reviewer: string, reviewedAt: string)

  datatype TimelineObject = TimelineObject(contentId: string, geometryRefs: seq<string>)

  function ReviewedBy(a: Approval): Reviewed {
    Reviewed(Strip(a.contentId), Strip(a.text), Upper(a.decision), Strip(a.reviewer), Strip(a.reviewedAt))
  }

  predicate Usable(a: Approval) { Decided(a) && Strip(a.contentId) != "" }

  /** The usable approvals by content id; the last one of an id counts. */
  function ById(approvals: seq<Approval>): map<string, Reviewed> {
    if approvals == [] then map[]
    else
      var last := approvals[|approvals| - 1];
      var earlier := ById(approvals[..|approvals| - 1]);
      if Usable(last) then earlier[Strip(last.contentId) := ReviewedBy(last)] else earlier
  }

  /** The digest of an object's crop image, if the image exists. */
  type Crops = string -> Option<string>

  function ClaimsOf(refs: seq<string>, crops: Crops, reviewed: Reviewed): seq<Claim<Reviewed>> {
    if refs == [] then []
    else
      var crop := crops(refs[|refs| - 1]);
      ClaimsOf(refs[..|refs| - 1], crops, reviewed) + (if crop.Some? then [Claim(crop.value, reviewed)] else [])
  }

  function CropClaims(byId: map<string, Reviewed>, timeline: seq<TimelineObject>, crops: Crops): seq<Claim<Reviewed>> {
    if timeline == [] then []
    else
      var last := timeline[|timeline| - 1];
      CropClaims(byId, timeline[..|timeline| - 1], crops)
      + (if last.contentId in byId then ClaimsOf(last.geometryRefs, crops, byId[last.contentId]) else [])
  }

  const TEXT_OF := (r: Reviewed) => r.text

  function CropAuthority(approvals: seq<Approval>, timeline: seq<TimelineObject>, crops: Crops): map<string, Reviewed> {
    Settled(Registered(CropClaims(ById(approvals), timeline, crops), TEXT_OF))
  }

  method ReviewedCropAuthority(approvals: seq<Approval>, timeline: seq<TimelineObject>, crops: Crops) returns (authority: map<string, Reviewed>)
    ensures authority == CropAuthority(approvals, timeline, crops)
  {
    hide Usable, ReviewedBy, Entered;
    var byId: map<string, Reviewed> := map[];
    var i := 0;
    while i < |approvals|
      invariant 0 <= i <= |approvals|
      invariant byId == ById(approvals[..i])
    {
      assert approvals[..i + 1][..i] == approvals[..i];
      if Usable(approvals[i]) {
        byId := byId[Strip(approvals[i].contentId) := ReviewedBy(approvals[i])];
      }
      i := i + 1;
    }
    assert approvals[..i] == approvals;
    var registry := Registry(map[], {});
    var k := 0;
    while k < |timeline|
      invariant 0 <= k <= |timeline|
      invariant registry == Registered(CropClaims(byId, timeline[..k], crops), TEXT_OF)
    {
      assert timeline[..k + 1][..k] == timeline[..k];
      if timeline[k].contentId in byId {
        registry := EnterCrops(registry, timeline[k].geometryRefs, crops, byId[timeline[k].contentId],
                               CropClaims(byId, timeline[..k], crops));
      } else {
        assert CropClaims(byId, timeline[..k], crops) + [] == CropClaims(byId, timeline[..k], crops);
      }
      k := k + 1;
    }
    assert timeline[..k] == timeline;
    authority := registry.held - registry.conflicted;
  }

  method EnterCrops(registry: Registry<Reviewed>, refs: seq<string>, crops: Crops, reviewed: Reviewed, ghost claims: seq<Claim<Reviewed>>)
    returns (r: Registry<Reviewed>)
    requires registry == Registered(claims, TEXT_OF)
    ensures r == Registered(claims + ClaimsOf(refs, crops, reviewed), TEXT_OF)
  {
    r := registry;
    var i := 0;
    assert claims + [] == claims;
    while i < |refs|
      invariant 0 <= i <= |refs|
      invariant r == Registered(claims + ClaimsOf(refs[..i], crops, reviewed), TEXT_OF)
    {
      assert refs[..i + 1][..i] == refs[..i];
      var crop := crops(refs[i]);
      ghost var earlier := claims + ClaimsOf(refs[..i], crops, reviewed);
      if crop.Some? {
        var claim := Claim(crop.value, reviewed);
        assert claims + (ClaimsOf(refs[..i], crops, reviewed) + [claim]) == earlier + [claim];
        assert (earlier + [claim])[..|earlier|] == earlier;
        if claim.key in r.held && r.held[claim.key].text != reviewed.text {
          r := r.(conflicted := r.conflicted + {claim.key});
        } else {
          r := r.(held := r.held[claim.key := reviewed]);
        }
      } else {
        assert ClaimsOf(refs[..i], crops, reviewed) + [] == ClaimsOf(refs[..i], crops, reviewed);
      }
      i := i + 1;
    }
    assert refs[..i] == refs;
  }

  // ----- By Chinese text -----

  datatype Sourced = Sourced(contentId: string, zh: string)

  function ZhById(timeline: seq<Sourced>): map<string, string> {
    if timeline == [] then map[]
    else
      var last := timeline[|timeline| - 1];
      ZhById(timeline[..|timeline| - 1])[last.contentId := Strip(last.zh)]
  }

  function ZhOf(byId: map<string, string>, contentId: string): string {
    if contentId in byId then byId[contentId] else ""
  }

  function ZhClaims(byId: map<string, string>, approvals: seq<Approval>): seq<Claim<string>> {
    if approvals == [] then []
    else
      var last := approvals[|approvals| - 1];
      var zh := ZhOf(byId, last.contentId);
      ZhClaims(byId, approvals[..|approvals| - 1]) + (if zh != "" && Decided(last) then [Claim(zh, Strip(last.text))] else [])
  }

  const AS_IS := (text: string) => text

  function ReviewedByZh(timeline: seq<Sourced>, approvals: seq<Approval>): map<string, string> {
    Settled(Registered(ZhClaims(ZhById(timeline), approvals), AS_IS))
  }

  datatype ReferenceEdits = ReferenceEdits(edits: map<string, string>, unmatched: seq<string>)

  datatype ReferenceError = MissingIdOrText

  function EditsFrom(reviewed: map<string, string>, queue: seq<Sourced>): Result<ReferenceEdits, ReferenceError> {
    if queue == [] then Ok(ReferenceEdits(map[], []))
    else
      var last := queue[|queue| - 1];
      match EditsFrom(reviewed, queue[..|queue| - 1])
      case Err(e) => Err(e)
      case Ok(earlier) =>
        if Strip(last.contentId) == "" || Strip(last.zh) == "" then Err(MissingIdOrText)
        else if Strip(last.zh) in reviewed then Ok(earlier.(edits := earlier.edits[Strip(last.contentId) := reviewed[Strip(last.zh)]]))
        else Ok(earlier.(unmatched := earlier.unmatched + [Strip(last.contentId)]))
  }

  method BuildReferenceEdits(timeline: seq<Sourced>, approvals: seq<Approval>, queue: seq<Sourced>)
    returns (r: Result<ReferenceEdits, ReferenceError>)
    ensures r == EditsFrom(ReviewedByZh(timeline, approvals), queue)
  {
    hide Strip, Registered;
    var reviewed := FillReviewed(timeline, approvals);
    var edits: map<string, string>, unmatched: seq<string> := map[], [];
    var i := 0;
    while i < |queue|
      invariant 0 <= i <= |queue|
      invariant EditsFrom(reviewed, queue[..i]) == Ok(ReferenceEdits(edits, unmatched))
    {
      assert queue[..i + 1][..i] == queue[..i];
      var contentId, zh := Strip(queue[i].contentId), Strip(queue[i].zh);
      if contentId == "" || zh == "" {
        EditsFail(reviewed, queue, i + 1);
        return Err(MissingIdOrText);
      }
      if zh in reviewed {
        edits := edits[contentId := reviewed[zh]];
      } else {
        unmatched := unmatched + [contentId];
      }
      i := i + 1;
    }
    assert queue[..i] == queue;
    r := Ok(ReferenceEdits(edits, unmatched));
  }

  method FillReviewed(timeline: seq<Sourced>, approvals: seq<Approval>) returns (reviewed: map<string, string>)
    ensures reviewed == ReviewedByZh(timeline, approvals)
  {
    hide Strip, Decided;
    var byId := ZhById(timeline);
    var registry: Registry<string> := Registry(map[], {});
    var i := 0;
    while i < |approvals|
      invariant 0 <= i <= |approvals|
      invariant registry == Registered(ZhClaims(byId, approvals[..i]), AS_IS)
    {
      assert approvals[..i + 1][..i] == approvals[..i];
      ghost var earlier := ZhClaims(byId, approvals[..i]);
      var zh, vi := ZhOf(byId, approvals[i].contentId), Strip(approvals[i].text);
      if zh != "" && Decided(approvals[i]) {
        assert (earlier + [Claim(zh, vi)])[..|earlier|] == earlier;
        if zh in registry.held && registry.held[zh] != vi {
          registry := registry.(conflicted := registry.conflicted + {zh});
        } else {
          registry := registry.(held := registry.held[zh := vi]);
        }
      } else {
        assert earlier + [] == earlier;
      }
      i := i + 1;
    }
    assert approvals[..i] == approvals;
    reviewed := registry.held - registry.conflicted;
  }

  lemma EditsFail(reviewed: map<string, string>, queue: seq<Sourced>, n: nat)
    requires n <= |queue| && EditsFrom(reviewed, queue[..n]).Err?
    ensures EditsFrom(reviewed, queue) == EditsFrom(reviewed, queue[..n])
  {
    hide Strip;
    PrefixFails(t => EditsFrom(reviewed, t), queue, n);
  }

  // ----- The lookups as rules over the stored rows -----

  /** Some timeline object with this review shows this crop. */
  ghost predicate Shows(byId: map<string, Reviewed>, timeline: seq<TimelineObject>, crops: Crops, key: string, reviewed: Reviewed) {
    exists o, ref :: o in timeline && ref in o.geometryRefs && o.contentId in byId && byId[o.contentId] == reviewed && crops(ref) == Some(key)
  }

  lemma {:induction false} ClaimsOfRefs(refs: seq<string>, crops: Crops, reviewed: Reviewed, c: Claim<Reviewed>)
    ensures c in ClaimsOf(refs, crops, reviewed) <==> c.value == reviewed && exists ref :: ref in refs && crops(ref) == Some(c.key)
  {
    if refs != [] {
      var front, last := refs[..|refs| - 1], refs[|refs| - 1];
      ClaimsOfRefs(front, crops, reviewed, c);
      assert forall ref :: ref in refs <==> ref in front || ref == last by {
        assert refs == front + [last];
      }
    }
  }

  lemma {:induction false} CropClaimsShow(byId: map<string, Reviewed>, timeline: seq<TimelineObject>, crops: Crops, c: Claim<Reviewed>)
    ensures c in CropClaims(byId, timeline, crops) <==> Shows(byId, timeline, crops, c.key, c.value)
  {
    if timeline != [] {
      var front, last := timeline[..|timeline| - 1], timeline[|timeline| - 1];
      CropClaimsShow(byId, front, crops, c);
      assert forall o :: o in timeline <==> o in front || o == last by {
        assert timeline == front + [last];
      }
      if last.contentId in byId {
        ClaimsOfRefs(last.geometryRefs, crops, byId[last.contentId], c);
      }
    }
  }

  /** A crop digest is mapped to a text exactly when some reviewed object shows that crop and all that do agree on the text. */
  lemma CropTextIsAgreed(approvals: seq<Approval>, timeline: seq<TimelineObject>, crops: Crops, key: string, text: string)
    ensures var authority := CropAuthority(approvals, timeline, crops);
      var byId := ById(approvals);
      (key in authority && authority[key].text == text) <==>
      ((exists r :: Shows(byId, timeline, crops, key, r)) && forall r :: Shows(byId, timeline, crops, key, r) ==> r.text == text)
  {
    var byId := ById(approvals);
    var claims := CropClaims(byId, timeline, crops);
    LookupIsAgreement(claims, TEXT_OF, key, text);
    forall r
      ensures Claim(key, r) in claims <==> Shows(byId, timeline, crops, key, r)
    {
      CropClaimsShow(byId, timeline, crops, Claim(key, r));
    }
    hide Shows, Registered, CropClaims;
  }

  lemma {:induction false} ByIdHolds(approvals: seq<Approval>, id: string)
    ensures id in ById(approvals) <==> exists a :: a in approvals && Usable(a) && Strip(a.contentId) == id
    ensures id in ById(approvals) ==> exists a :: a in approvals && Usable(a) && Strip(a.contentId) == id && ById(approvals)[id] == ReviewedBy(a)
  {
    hide Usable, Strip, ReviewedBy;
    if approvals != [] {
      var front, last := approvals[..|approvals| - 1], approvals[|approvals| - 1];
      ByIdHolds(front, id);
      assert forall a :: a in approvals <==> a in front || a == last by {
        assert approvals == front + [last];
      }
    }
  }

  /** No content id has two usable approvals. */
  ghost predicate OnePerId(approvals: seq<Approval>) {
    forall a, b :: a in approvals && b in approvals && Usable(a) && Usable(b) && Strip(a.contentId) == Strip(b.contentId) ==> a == b
  }

  lemma ByIdIgnoresOrder(a: seq<Approval>, b: seq<Approval>)
    requires OnePerId(a) && forall x :: x in a <==> x in b
    ensures ById(a) == ById(b)
  {
    hide Usable, Strip, ReviewedBy, ById;
    forall id
      ensures id in ById(a) <==> id in ById(b)
      ensures id in ById(a) ==> ById(a)[id] == ById(b)[id]
    {
      ByIdHolds(a, id);
      ByIdHolds(b, id);
    }
  }

  /** With one usable approval per id, neither the order of the timeline nor that of the approvals affects the texts. */
  lemma CropAuthorityIgnoresOrder(approvals: seq<Approval>, timeline: seq<TimelineObject>, crops: Crops,
                                  approvals': seq<Approval>, timeline': seq<TimelineObject>)
    requires OnePerId(approvals) && (forall x :: x in approvals <==> x in approvals')
    requires forall o :: o in timeline <==> o in timeline'
    ensures SameTexts(CropAuthority(approvals, timeline, crops), CropAuthority(approvals', timeline', crops), TEXT_OF)
  {
    ByIdIgnoresOrder(approvals, approvals');
    var byId := ById(approvals);
    var a, b := CropClaims(byId, timeline, crops), CropClaims(byId, timeline', crops);
    forall c
      ensures c in a <==> c in b
    {
      CropClaimsShow(byId, timeline, crops, c);
      CropClaimsShow(byId, timeline', crops, c);
    }
    hide Registered, Settled, CropClaims;
    LookupIgnoresOrder(a, b, TEXT_OF);
  }

  /** Some decided approval of this Chinese text gives this Vietnamese text. */
  ghost predicate Says(byId: map<string, string>, approvals: seq<Approval>, zh: string, vi: string) {
    zh != "" && exists a :: a in approvals && Decided(a) && ZhOf(byId, a.contentId) == zh && Strip(a.text) == vi
  }

  lemma {:induction false} ZhClaimsSay(byId: map<string, string>, approvals: seq<Approval>, zh: string, vi: string)
    ensures Claim(zh, vi) in ZhClaims(byId, approvals) <==> Says(byId, approvals, zh, vi)
  {
    hide Decided, Strip, ZhOf;
    if approvals != [] {
      var front, last := approvals[..|approvals| - 1], approvals[|approvals| - 1];
      ZhClaimsSay(byId, front, zh, vi);
      assert forall a :: a in approvals <==> a in front || a == last by {
        assert approvals == front + [last];
      }
    }
  }

  /** A Chinese text is mapped exactly when it has a decided approval and all of them give the same translation. */
  lemma TranslationIsAgreed(timeline: seq<Sourced>, approvals: seq<Approval>, zh: string, vi: string)
    ensures var reviewed := ReviewedByZh(timeline, approvals);
      var byId := ZhById(timeline);
      (zh in reviewed && reviewed[zh] == vi) <==> (Says(byId, approvals, zh, vi) && forall v :: Says(byId, approvals, zh, v) ==> v == vi)
  {
    var byId := ZhById(timeline);
    var claims := ZhClaims(byId, approvals);
    LookupIsAgreement(claims, AS_IS, zh, vi);
    forall v
      ensures Claim(zh, v) in claims <==> Says(byId, approvals, zh, v)
    {
      ZhClaimsSay(byId, approvals, zh, v);
    }
    hide Says, Registered, ZhClaims;
  }

  lemma {:induction false} ZhByIdHolds(timeline: seq<Sourced>, id: string)
    ensures id in ZhById(timeline) <==> exists o :: o in timeline && o.contentId == id
    ensures id in ZhById(timeline) ==> exists o :: o in timeline && o.contentId == id && ZhById(timeline)[id] == Strip(o.zh)
  {
    hide Strip;
    if timeline != [] {
      var front, last := timeline[..|timeline| - 1], timeline[|timeline| - 1];
      ZhByIdHolds(front, id);
      assert forall o :: o in timeline <==> o in front || o == last by {
        assert timeline == front + [last];
      }
    }
  }

  /** No content id is listed with two different texts. */
  ghost predicate OneTextPerId(timeline: seq<Sourced>) {
    forall a, b :: a in timeline && b in timeline && a.contentId == b.contentId ==> Strip(a.zh) == Strip(b.zh)
  }

  lemma ZhByIdIgnoresOrder(a: seq<Sourced>, b: seq<Sourced>)
    requires OneTextPerId(a) && forall x :: x in a <==> x in b
    ensures ZhById(a) == ZhById(b)
  {
    hide Strip, ZhById;
    forall id
      ensures id in ZhById(a) <==> id in ZhById(b)
      ensures id in ZhById(a) ==> ZhById(a)[id] == ZhById(b)[id]
    {
      ZhByIdHolds(a, id);
      ZhByIdHolds(b, id);
    }
  }

  /** With one text per content id, neither the order of the timeline nor that of the approvals affects any translation. */
  lemma TranslationsIgnoreOrder(timeline: seq<Sourced>, timeline': seq<Sourced>, a: seq<Approval>, b: seq<Approval>)
    requires OneTextPerId(timeline) && forall o :: o in timeline <==> o in timeline'
    requires forall x :: x in a <==> x in b
    ensures ReviewedByZh(timeline, a) == ReviewedByZh(timeline', b)
  {
    ZhByIdIgnoresOrder(timeline, timeline');
    ApprovalOrderIsIgnored(timeline, a, b);
  }

  lemma ApprovalOrderIsIgnored(timeline: seq<Sourced>, a: seq<Approval>, b: seq<Approval>)
    requires forall x :: x in a <==> x in b
    ensures ReviewedByZh(timeline, a) == ReviewedByZh(timeline, b)
  {
    var byId := ZhById(timeline);
    var x, y := ZhClaims(byId, a), ZhClaims(byId, b);
    forall c
      ensures c in x <==> c in y
    {
      ZhClaimsSay(byId, a, c.key, c.value);
      ZhClaimsSay(byId, b, c.key, c.value);
    }
    LookupIgnoresOrder(x, y, AS_IS);
    hide Registered, Settled, ZhClaims;
  }

  // ----- The edits -----

  predicate Matched(reviewed: map<string, string>, row: Sourced) { Strip(row.zh) in reviewed }

  lemma {:induction false} EditsAt(reviewed: map<string, string>, queue: seq<Sourced>, id: string)
    requires EditsFrom(reviewed, queue).Ok?
    ensures var edits := EditsFrom(reviewed, queue).value.edits;
      && (id in edits <==> exists row :: row in queue && Matched(reviewed, row) && Strip(row.contentId) == id)
      && (id in edits ==> exists row ::
            row in queue && Matched(reviewed, row) && Strip(row.contentId) == id && edits[id] == reviewed[Strip(row.zh)])
  {
    hide Strip;
    if queue != [] {
      var front, last := queue[..|queue| - 1], queue[|queue| - 1];
      EditsAt(reviewed, front, id);
      assert forall row :: row in queue <==> row in front || row == last by {
        assert queue == front + [last];
      }
    }
  }

  lemma {:induction false} UnmatchedAt(reviewed: map<string, string>, queue: seq<Sourced>, id: string)
    requires EditsFrom(reviewed, queue).Ok?
    ensures id in EditsFrom(reviewed, queue).value.unmatched <==>
      exists row :: row in queue && !Matched(reviewed, row) && Strip(row.contentId) == id
  {
    hide Strip;
    if queue != [] {
      var front, last := queue[..|queue| - 1], queue[|queue| - 1];
      UnmatchedAt(reviewed, front, id);
      assert forall row :: row in queue <==> row in front || row == last by {
        assert queue == front + [last];
      }
    }
  }

  ghost predicate DistinctRows(queue: seq<Sourced>) {
    forall i, j :: 0 <= i < j < |queue| ==> Strip(queue[i].contentId) != Strip(queue[j].contentId)
  }

  lemma {:induction false} EditsAndUnmatchedCount(reviewed: map<string, string>, queue: seq<Sourced>)
    requires EditsFrom(reviewed, queue).Ok? && DistinctRows(queue)
    ensures var r := EditsFrom(reviewed, queue).value; |r.edits| + |r.unmatched| == |queue|
  {
    hide Strip;
    if queue != [] {
      var front, last := queue[..|queue| - 1], queue[|queue| - 1];
      EditsAndUnmatchedCount(reviewed, front);
      EditsAt(reviewed, front, Strip(last.contentId));
      assert Strip(last.contentId) !in EditsFrom(reviewed, front).value.edits;
    }
  }

  /**
   * Every row of the queue is either edited with a reviewed translation of its Chinese text or listed as unmatched; with
   * distinct ids never both, and the two counts add up to the queue.
   */
  lemma EditsPartitionTheQueue(reviewed: map<string, string>, queue: seq<Sourced>, row: Sourced)
    requires EditsFrom(reviewed, queue).Ok? && DistinctRows(queue) && row in queue
    ensures var r := EditsFrom(reviewed, queue).value;
      var id := Strip(row.contentId);
      && (id in r.edits <==> Matched(reviewed, row)) && (id in r.unmatched <==> !Matched(reviewed, row))
      && (id in r.edits ==> r.edits[id] == reviewed[Strip(row.zh)])
      && |r.edits| + |r.unmatched| == |queue|
  {
    EditsAt(reviewed, queue, Strip(row.contentId));
    UnmatchedAt(reviewed, queue, Strip(row.contentId));
    EditsAndUnmatchedCount(reviewed, queue);
    hide Strip;
    assert forall other :: other in queue && Strip(other.contentId) == Strip(row.contentId) ==> other == row by {
      var i :| 0 <= i < |queue| && queue[i] == row;
      forall other | other in queue && Strip(other.contentId) == Strip(row.contentId)
        ensures other == row
      {
        var j :| 0 <= j < |queue| && queue[j] == other;
        assert i == j;
      }
    }
  }

  /** The edits can be built exactly when every row of the queue has an id and a Chinese text. */
  lemma {:induction false} WhenEditsAreBuilt(reviewed: map<string, string>, queue: seq<Sourced>)
    ensures EditsFrom(reviewed, queue).Ok? <==>
      forall i :: 0 <= i < |queue| ==> Strip(queue[i].contentId) != "" && Strip(queue[i].zh) != ""
  {
    hide Strip;
    if queue != [] {
      var front := queue[..|queue| - 1];
      WhenEditsAreBuilt(reviewed, front);
      assert forall i :: 0 <= i < |front| ==> front[i] == queue[i];
    }
  }

  // ----- The same, from the stored approvals -----

  /** An approval counts when it approves or edits, with a text, a reviewer and a time. */
  predicate IsReview(a: Approval) {
    && (Upper(a.decision) == "APPROVE" || Upper(a.decision) == "EDIT")
    && Strip(a.text) != "" && Strip(a.reviewer) != "" && Strip(a.reviewedAt) != ""
  }

  lemma WhenApprovalCounts(a: Approval)
    ensures Decided(a) <==> IsReview(a)
  {
    hide Upper, Strip;
  }

  /** The last approval that counts of an id. */
  ghost predicate LastReview(approvals: seq<Approval>, id: string, k: int) {
    && 0 <= k < |approvals| && IsReview(approvals[k]) && Strip(approvals[k].contentId) == id && id != ""
    && forall j :: k < j < |approvals| && IsReview(approvals[j]) ==> Strip(approvals[j].contentId) != id
  }

  lemma {:induction false} ByIdIs(approvals: seq<Approval>, id: string)
    ensures id in ById(approvals) ==> exists k :: LastReview(approvals, id, k) && ById(approvals)[id].text == Strip(approvals[k].text)
    ensures id !in ById(approvals) ==> forall k :: !LastReview(approvals, id, k)
  {
    hide IsReview, Strip, Decided, Upper;
    if approvals != [] {
      var n := |approvals| - 1;
      var front, last := approvals[..n], approvals[n];
      ByIdIs(front, id);
      WhenApprovalCounts(last);
      if IsReview(last) && Strip(last.contentId) == id && id != "" {
        assert LastReview(approvals, id, n);
      } else {
        forall k
          ensures LastReview(approvals, id, k) ==> LastReview(front, id, k)
          ensures LastReview(front, id, k) ==> LastReview(approvals, id, k) && approvals[k] == front[k]
        {
        }
      }
    }
  }

  lemma OneLastReview(approvals: seq<Approval>, id: string, j: int, k: int)
    requires LastReview(approvals, id, j) && LastReview(approvals, id, k)
    ensures j == k
  {
    hide IsReview, Strip;
  }

  /** Some object on the timeline shows the crop, and the last approval that counts of its id gives the text. */
  ghost predicate ReviewedAs(approvals: seq<Approval>, timeline: seq<TimelineObject>, crops: Crops, key: string, text: string) {
    exists o, ref, k ::
      && o in timeline && ref in o.geometryRefs && crops(ref) == Some(key)
      && LastReview(approvals, o.contentId, k) && Strip(approvals[k].text) == text
  }

  lemma WhenItIsReviewedAs(approvals: seq<Approval>, timeline: seq<TimelineObject>, crops: Crops, key: string, text: string)
    ensures ReviewedAs(approvals, timeline, crops, key, text) <==>
      exists r :: Shows(ById(approvals), timeline, crops, key, r) && r.text == text
  {
    var byId := ById(approvals);
    ReviewsInRange(approvals);
    hide ById, LastReview, Strip;
    if r :| Shows(byId, timeline, crops, key, r) && r.text == text {
      var o, ref :| o in timeline && ref in o.geometryRefs && o.contentId in byId && byId[o.contentId] == r && crops(ref) == Some(key);
      ByIdIs(approvals, o.contentId);
      var k :| LastReview(approvals, o.contentId, k) && byId[o.contentId].text == Strip(approvals[k].text);
      assert ReviewedAs(approvals, timeline, crops, key, text);
    }
    if ReviewedAs(approvals, timeline, crops, key, text) {
      var o, ref, k :| o in timeline && ref in o.geometryRefs && crops(ref) == Some(key)
        && LastReview(approvals, o.contentId, k) && Strip(approvals[k].text) == text;
      ByIdIs(approvals, o.contentId);
      var j :| LastReview(approvals, o.contentId, j) && byId[o.contentId].text == Strip(approvals[j].text);
      OneLastReview(approvals, o.contentId, j, k);
      assert Shows(byId, timeline, crops, key, byId[o.contentId]);
    }
  }

  lemma ReviewsInRange(approvals: seq<Approval>)
    ensures forall id, k :: LastReview(approvals, id, k) ==> 0 <= k < |approvals|
  {
  }

  /** A crop digest is mapped to a text exactly when it is reviewed as that text and as no other. */
  lemma CropTextIsReviewed(approvals: seq<Approval>, timeline: seq<TimelineObject>, crops: Crops, key: string, text: string)
    ensures var authority := CropAuthority(approvals, timeline, crops);
      (key in authority && authority[key].text == text) <==>
      (ReviewedAs(approvals, timeline, crops, key, text)
       && forall other :: ReviewedAs(approvals, timeline, crops, key, other) ==> other == text)
  {
    CropTextIsAgreed(approvals, timeline, crops, key, text);
    hide *;
    WhenItIsReviewedAs(approvals, timeline, crops, key, text);
    forall r | Shows(ById(approvals), timeline, crops, key, r)
      ensures ReviewedAs(approvals, timeline, crops, key, r.text)
    {
      WhenItIsReviewedAs(approvals, timeline, crops, key, r.text);
    }
    forall other | ReviewedAs(approvals, timeline, crops, key, other)
      ensures exists r :: Shows(ById(approvals), timeline, crops, key, r) && r.text == other
    {
      WhenItIsReviewedAs(approvals, timeline, crops, key, other);
    }
  }

  /** The Chinese text of an id: that of its last row, trimmed. */
  ghost predicate LastZh(timeline: seq<Sourced>, id: string, zh: string) {
    exists k :: 0 <= k < |timeline| && timeline[k].contentId == id && Strip(timeline[k].zh) == zh
      && forall j :: k < j < |timeline| ==> timeline[j].contentId != id
  }

  lemma {:induction false} ZhByIdIs(timeline: seq<Sourced>, id: string, zh: string)
    ensures (id in ZhById(timeline) && ZhById(timeline)[id] == zh) <==> LastZh(timeline, id, zh)
  {
    hide Strip;
    if timeline != [] {
      var n := |timeline| - 1;
      var front, last := timeline[..n], timeline[n];
      ZhByIdIs(front, id, zh);
      if last.contentId == id {
        assert Strip(last.zh) == zh ==> LastZh(timeline, id, zh);
      } else {
        assert forall i :: 0 <= i < n ==> front[i] == timeline[i];
        if LastZh(front, id, zh) {
          var k :| 0 <= k < |front| && front[k].contentId == id && Strip(front[k].zh) == zh
            && forall j :: k < j < |front| ==> front[j].contentId != id;
          assert timeline[k].contentId == id && forall j :: k < j < |timeline| ==> timeline[j].contentId != id;
        }
        if LastZh(timeline, id, zh) {
          var k :| 0 <= k < |timeline| && timeline[k].contentId == id && Strip(timeline[k].zh) == zh
            && forall j :: k < j < |timeline| ==> timeline[j].contentId != id;
          assert front[k].contentId == id && forall j :: k < j < |front| ==> front[j].contentId != id;
        }
      }
    }
  }

  /** An approval that counts translates the Chinese text of its id. */
  ghost predicate TranslatedAs(timeline: seq<Sourced>, approvals: seq<Approval>, zh: string, vi: string) {
    zh != "" && exists a :: a in approvals && IsReview(a) && LastZh(timeline, a.contentId, zh) && Strip(a.text) == vi
  }

  /** A Chinese text is translated exactly when some approval that counts does so, and all that do agree. */
  lemma TranslationIsReviewed(timeline: seq<Sourced>, approvals: seq<Approval>, zh: string, vi: string)
    ensures var reviewed := ReviewedByZh(timeline, approvals);
      (zh in reviewed && reviewed[zh] == vi) <==>
      (TranslatedAs(timeline, approvals, zh, vi) && forall v :: TranslatedAs(timeline, approvals, zh, v) ==> v == vi)
  {
    TranslationIsAgreed(timeline, approvals, zh, vi);
    forall v
      ensures Says(ZhById(timeline), approvals, zh, v) <==> TranslatedAs(timeline, approvals, zh, v)
    {
      forall a: Approval
        ensures Decided(a) <==> IsReview(a)
        ensures zh != "" ==> (ZhOf(ZhById(timeline), a.contentId) == zh <==> LastZh(timeline, a.contentId, zh))
      {
        WhenApprovalCounts(a);
        ZhByIdIs(timeline, a.contentId, zh);
      }
      hide Decided, IsReview, LastZh, ZhById, ZhOf, Strip;
    }
    hide ReviewedByZh, TranslatedAs, Says;
  }
}
