/** Which Phase-1 boxes a residual cluster touches: the incrementally updated index and the maximum and unions it stands for. */
module IntersectionIndex {
  import opened Prelude
  import opened Text
  import opened Geometry
  import opened FrameScan
  import opened Sorting

  datatype MasterRow = MasterRow(textId: string, start: Option<int>, end: Option<int>, corners: Option<Rect>, text: string)

  datatype Detection = Detection(frame: Option<int>, geometry: RawGeometry)

  /** One record of the index. */
  datatype Intersection = Intersection(start: int, end: int, geometry: Box, overlap: real, frames: seq<int>, activeFrames: seq<int>,
                                       active: bool, text: string)

  /** A detection meeting a row, above the threshold. */
  datatype Contact = Contact(textId: string, overlap: real, frame: int, active: bool, row: MasterRow, geometry: Box)

  /** The pixel box of a row as a share of the frame, when it is usable. */
  function NormalizedGeometry(row: MasterRow, width: int, height: int): Option<Box> {
    if row.corners.None? || width < 2 || height < 2 then None
    else
      var c := row.corners.value;
      var b := Box(c.left / width as real, c.top / height as real,
                   (c.right - c.left) / width as real, (c.bottom - c.top) / height as real);
      if c.right <= c.left || c.bottom <= c.top || RectOf(b).Err? then None else Some(b)
  }

  function TextIdOf(row: MasterRow): string { if row.textId == "" then "unknown" else row.textId }

  function StartOf(row: MasterRow): int { OrDefault(row.start, 0) }

  function EndOf(row: MasterRow): int { OrDefault(row.end, StartOf(row)) }

  function ContactOf(rect: Rect, frame: int, row: MasterRow, width: int, height: int): Option<Contact> {
    match NormalizedGeometry(row, width, height)
    case None => None
    case Some(b) =>
      var overlap := Overlap(rect, Corners(b));
      if overlap < 0.05 then None
      else Some(Contact(TextIdOf(row), overlap, frame, StartOf(row) <= frame <= EndOf(row), row, b))
  }

  function ContactsOf(rect: Rect, frame: int, rows: seq<MasterRow>, width: int, height: int): seq<Contact> {
    if rows == [] then []
    else
      var contact := ContactOf(rect, frame, rows[|rows| - 1], width, height);
      ContactsOf(rect, frame, rows[..|rows| - 1], width, height) + (if contact.Some? then [contact.value] else [])
  }

  /** All contacts in the order they are met; the first unusable detection fails the whole index. */
  function AllContacts(detections: seq<Detection>, rows: seq<MasterRow>, width: int, height: int): Result<seq<Contact>, GeometryError> {
    if detections == [] then Ok([])
    else
      var d := detections[|detections| - 1];
      match AllContacts(detections[..|detections| - 1], rows, width, height)
      case Err(e) => Err(e)
      case Ok(earlier) =>
        match ReadRect(d.geometry)
        case Err(e) => Err(e)
        case Ok(rect) => Ok(earlier + ContactsOf(rect, OrDefault(d.frame, 0), rows, width, height))
  }

  type Rounding = real -> real

  type Index = map<string, Intersection>

  function Opened(rounding: Rounding, c: Contact): Intersection {
    Intersection(StartOf(c.row), EndOf(c.row), c.geometry, rounding(c.overlap), [c.frame], if c.active then [c.frame] else [],
                 c.active, c.row.text)
  }

  function Updated(rounding: Rounding, existing: Intersection, c: Contact): Intersection {
    existing.(overlap := rounding(MaxReal(existing.overlap, c.overlap)),
              frames := SortedDistinct(existing.frames + [c.frame]),
              activeFrames := SortedDistinct(existing.activeFrames + (if c.active then [c.frame] else [])),
              active := existing.active || c.active)
  }

  function Noted(rounding: Rounding, index: Index, c: Contact): Index {
    index[c.textId := if c.textId in index then Updated(rounding, index[c.textId], c) else Opened(rounding, c)]
  }

  function Indexed(rounding: Rounding, contacts: seq<Contact>): Index {
    if contacts == [] then map[] else Noted(rounding, Indexed(rounding, contacts[..|contacts| - 1]), contacts[|contacts| - 1])
  }

  /** A record of the finished index with its text id. */
  datatype Listing = Listing(textId: string, record: Intersection)

  /** Larger overlaps first, then by text id. */
  predicate Precedes(a: Listing, b: Listing) {
    a.record.overlap > b.record.overlap || (a.record.overlap == b.record.overlap && TextLe(a.textId, b.textId))
  }

  /** Every record once, in order. */
  ghost predicate Lists(rows: seq<Listing>, index: Index) {
    && Distinct(rows) && SortedBy(rows, Precedes)
    && forall row :: row in rows <==> row.textId in index && index[row.textId] == row.record
  }

  lemma PrecedesIsTotal()
    ensures TotalPreorder(Precedes)
  {
    forall a, b
      ensures Precedes(a, b) || Precedes(b, a)
    {
      TextLeIsTotal(a.textId, b.textId);
    }
    forall a, b, c | Precedes(a, b) && Precedes(b, c)
      ensures Precedes(a, c)
    {
      if TextLe(a.textId, b.textId) && TextLe(b.textId, c.textId) {
        TextLeIsTransitive(a.textId, b.textId, c.textId);
      }
    }
  }

  /** There is only one such list. */
  lemma ListingIsUnique(a: seq<Listing>, b: seq<Listing>, index: Index)
    requires Lists(a, index) && Lists(b, index)
    ensures a == b
  {
    SortedListsAgree(a, b);
  }

  lemma {:induction false} SortedListsAgree(a: seq<Listing>, b: seq<Listing>)
    requires Distinct(a) && Distinct(b) && SortedBy(a, Precedes) && SortedBy(b, Precedes)
    requires forall x :: x in a <==> x in b
    requires forall x, y :: x in a && y in a && x.textId == y.textId ==> x == y
    ensures a == b
  {
    assert |a| > 0 ==> a[0] in b;
    assert |b| > 0 ==> b[0] in a;
    if a != [] {
      FirstsAgree(a, b);
      SameTails(a, b);
      SortedListsAgree(a[1..], b[1..]);
    }
  }

  lemma SameTails(a: seq<Listing>, b: seq<Listing>)
    requires a != [] && b != [] && a[0] == b[0] && Distinct(a) && Distinct(b)
    requires forall x :: x in a <==> x in b
    ensures a == [a[0]] + a[1..] && b == [b[0]] + b[1..]
    ensures forall x :: x in a[1..] <==> x in b[1..]
    ensures Distinct(a[1..]) && Distinct(b[1..])
  {
    assert a[0] !in a[1..] && b[0] !in b[1..];
    forall x
      ensures x in a[1..] <==> x in a && x != a[0]
      ensures x in b[1..] <==> x in b && x != b[0]
    {
      assert a == [a[0]] + a[1..] && b == [b[0]] + b[1..];
    }
  }

  lemma FirstsAgree(a: seq<Listing>, b: seq<Listing>)
    requires a != [] && b != [] && SortedBy(a, Precedes) && SortedBy(b, Precedes) && a[0] in b && b[0] in a
    requires forall x, y :: x in a && y in a && x.textId == y.textId ==> x == y
    ensures a[0] == b[0]
  {
    var i :| 0 <= i < |a| && a[i] == b[0];
    var j :| 0 <= j < |b| && b[j] == a[0];
    if i > 0 && j > 0 {
      assert Precedes(a[0], a[i]) && Precedes(b[0], b[j]);
      TextLeIsTotal(a[0].textId, b[0].textId);
    }
  }

  method Phase1GeometryIntersections(detections: seq<Detection>, rows: seq<MasterRow>, width: int, height: int, rounding: Rounding)
    returns (r: Result<seq<Listing>, GeometryError>)
    ensures match AllContacts(detections, rows, width, height)
      case Err(e) => r == Err(e)
      case Ok(contacts) => r.Ok? && Lists(r.value, Indexed(rounding, contacts))
  {
    hide Noted, ContactOf, ContactsOf;
    var index: Index := map[];
    ghost var contacts: seq<Contact> := [];
    var i := 0;
    while i < |detections|
      invariant 0 <= i <= |detections|
      invariant AllContacts(detections[..i], rows, width, height) == Ok(contacts)
      invariant index == Indexed(rounding, contacts)
    {
      assert detections[..i + 1][..i] == detections[..i];
      var rect := ReadRect(detections[i].geometry);
      if rect.Err? {
        ContactsFail(detections, rows, width, height, i + 1);
        return Err(rect.error);
      }
      var frame := OrDefault(detections[i].frame, 0);
      index := NoteRows(rounding, index, contacts, rect.value, frame, rows, width, height);
      contacts := contacts + ContactsOf(rect.value, frame, rows, width, height);
      i := i + 1;
    }
    assert detections[..i] == detections;
    var listed := ListRecords(index);
    r := Ok(listed);
  }

  /** The records one by one, then sorted. */
  method ListRecords(index: Index) returns (listed: seq<Listing>)
    ensures Lists(listed, index)
  {
    var rows: seq<Listing> := [];
    var rest := index.Keys;
    while rest != {}
      invariant rest <= index.Keys
      invariant Distinct(rows)
      invariant forall row :: row in rows <==> row.textId in index && row.textId !in rest && index[row.textId] == row.record
      decreases |rest|
    {
      var id :| id in rest;
      rows := rows + [Listing(id, index[id])];
      rest := rest - {id};
    }
    listed := Sort(rows, Precedes);
    PrecedesIsTotal();
    SortSorts(rows, Precedes);
    SortKeepsDistinct(rows, listed);
    forall row
      ensures row in listed <==> row in rows
    {
      SameMembers(rows, Precedes, row);
    }
  }

  lemma SortKeepsDistinct(a: seq<Listing>, b: seq<Listing>)
    requires Distinct(a) && multiset(a) == multiset(b)
    ensures Distinct(b)
  {
    forall i, j | 0 <= i < j < |b|
      ensures b[i] != b[j]
    {
      if b[i] == b[j] {
        TwiceInMultiset(b, i, j);
        OnceInMultiset(a, b[i]);
      }
    }
  }

  lemma TwiceInMultiset(s: seq<Listing>, i: nat, j: nat)
    requires i < j < |s| && s[i] == s[j]
    ensures multiset(s)[s[i]] >= 2
  {
    assert s == s[..j] + s[j..];
    assert s[i] in s[..j] && s[i] in s[j..];
    assert multiset(s) == multiset(s[..j]) + multiset(s[j..]);
  }

  lemma {:induction false} OnceInMultiset(s: seq<Listing>, x: Listing)
    requires Distinct(s)
    ensures multiset(s)[x] <= 1
  {
    if s != [] {
      var front, last := s[..|s| - 1], s[|s| - 1];
      assert s == front + [last];
      OnceInMultiset(front, x);
      assert last !in front;
    }
  }

  method NoteRows(rounding: Rounding, index: Index, ghost contacts: seq<Contact>, rect: Rect, frame: int, rows: seq<MasterRow>,
                  width: int, height: int) returns (r: Index)
    requires index == Indexed(rounding, contacts)
    ensures r == Indexed(rounding, contacts + ContactsOf(rect, frame, rows, width, height))
  {
    hide Noted, ContactOf, Indexed;
    r := index;
    var i := 0;
    assert contacts + [] == contacts;
    while i < |rows|
      invariant 0 <= i <= |rows|
      invariant r == Indexed(rounding, contacts + ContactsOf(rect, frame, rows[..i], width, height))
    {
      assert rows[..i + 1][..i] == rows[..i];
      ghost var met := ContactsOf(rect, frame, rows[..i], width, height);
      var contact := ContactOf(rect, frame, rows[i], width, height);
      if contact.Some? {
        assert contacts + (met + [contact.value]) == contacts + met + [contact.value];
        IndexedStep(rounding, contacts + met, contact.value);
        r := Noted(rounding, r, contact.value);
      } else {
        assert met + [] == met;
      }
      i := i + 1;
    }
    assert rows[..i] == rows;
  }

  lemma IndexedStep(rounding: Rounding, contacts: seq<Contact>, c: Contact)
    ensures Indexed(rounding, contacts + [c]) == Noted(rounding, Indexed(rounding, contacts), c)
  {
    hide Noted;
    assert (contacts + [c])[..|contacts|] == contacts;
  }

  lemma ContactsFail(detections: seq<Detection>, rows: seq<MasterRow>, width: int, height: int, n: nat)
    requires n <= |detections| && AllContacts(detections[..n], rows, width, height).Err?
    ensures AllContacts(detections, rows, width, height) == AllContacts(detections[..n], rows, width, height)
  {
    hide ContactsOf, ReadRect;
    PrefixFails(t => AllContacts(t, rows, width, height), detections, n);
  }

  // ----- The declarative reading -----

  ghost predicate Monotone(rounding: Rounding) { forall x, y :: x <= y ==> rounding(x) <= rounding(y) }

  ghost predicate Idempotent(rounding: Rounding) { forall x :: rounding(rounding(x)) == rounding(x) }

  lemma RoundedMax(rounding: Rounding, x: real, y: real)
    requires Monotone(rounding) && Idempotent(rounding)
    ensures rounding(MaxReal(rounding(x), y)) == MaxReal(rounding(x), rounding(y)) == rounding(MaxReal(x, y))
  {
    assert rounding(rounding(x)) == rounding(x);
    if rounding(x) < y {
      assert rounding(rounding(x)) <= rounding(y);
    } else {
      assert rounding(y) <= rounding(rounding(x));
    }
    if x < y {
      assert rounding(x) <= rounding(y);
    } else {
      assert rounding(y) <= rounding(x);
    }
  }

  ghost predicate Meets(contacts: seq<Contact>, id: string, frame: int) {
    exists c :: c in contacts && c.textId == id && c.frame == frame
  }

  ghost predicate MeetsActive(contacts: seq<Contact>, id: string, frame: int) {
    exists c :: c in contacts && c.textId == id && c.frame == frame && c.active
  }

  /** `overlap` is the rounded overlap of some contact with the id, and at least that of every one. */
  ghost predicate IsRoundedMax(rounding: Rounding, contacts: seq<Contact>, id: string, overlap: real) {
    && (exists c :: c in contacts && c.textId == id && overlap == rounding(c.overlap))
    && (forall c :: c in contacts && c.textId == id ==> rounding(c.overlap) <= overlap)
  }

  /** The frame lists of a record are the sorted unions over the contacts of its id. */
  ghost predicate IsUnion(contacts: seq<Contact>, id: string, record: Intersection) {
    && StrictlyAscending(record.frames) && StrictlyAscending(record.activeFrames)
    && (forall f :: f in record.frames <==> Meets(contacts, id, f))
    && (forall f :: f in record.activeFrames <==> MeetsActive(contacts, id, f))
    && (record.active <==> record.activeFrames != [])
  }

  ghost predicate Describes(rounding: Rounding, contacts: seq<Contact>, id: string, index: Index) {
    && (id in index <==> exists c :: c in contacts && c.textId == id)
    && (id in index ==> IsRoundedMax(rounding, contacts, id, index[id].overlap) && IsUnion(contacts, id, index[id]))
  }

  lemma MaxStep(rounding: Rounding, front: seq<Contact>, c: Contact, id: string, overlap: real)
    requires Monotone(rounding) && Idempotent(rounding)
    requires IsRoundedMax(rounding, front, id, overlap) && c.textId == id
    ensures IsRoundedMax(rounding, front + [c], id, rounding(MaxReal(overlap, c.overlap)))
  {
    var d :| d in front && d.textId == id && overlap == rounding(d.overlap);
    RoundedMax(rounding, d.overlap, c.overlap);
    hide Monotone, Idempotent;
    var all := front + [c];
    assert d in all && c in all;
  }

  lemma UnionStep(front: seq<Contact>, c: Contact, id: string, record: Intersection, rounding: Rounding)
    requires IsUnion(front, id, record) && c.textId == id
    ensures IsUnion(front + [c], id, Updated(rounding, record, c))
  {
    var grown := Updated(rounding, record, c);
    SortedDistinctIs(record.frames + [c.frame]);
    SortedDistinctIs(record.activeFrames + (if c.active then [c.frame] else []));
    MeetsStep(front, c, id);
    hide SortedDistinct, Meets, MeetsActive;
    if record.activeFrames != [] {
      assert record.activeFrames[0] in record.activeFrames + (if c.active then [c.frame] else []);
      assert record.activeFrames[0] in grown.activeFrames;
    }
    if c.active {
      assert c.frame in grown.activeFrames;
    }
    if grown.activeFrames != [] {
      assert grown.activeFrames[0] in grown.activeFrames;
    }
  }

  lemma MeetsStep(front: seq<Contact>, c: Contact, id: string)
    ensures forall f :: Meets(front + [c], id, f) <==> Meets(front, id, f) || (c.textId == id && c.frame == f)
    ensures forall f :: MeetsActive(front + [c], id, f) <==> MeetsActive(front, id, f) || (c.textId == id && c.frame == f && c.active)
  {
    assert forall d :: d in front + [c] <==> d in front || d == c;
  }

  lemma OpenedDescribes(rounding: Rounding, front: seq<Contact>, c: Contact, id: string)
    requires c.textId == id && forall d :: d in front ==> d.textId != id
    ensures IsRoundedMax(rounding, front + [c], id, Opened(rounding, c).overlap)
    ensures IsUnion(front + [c], id, Opened(rounding, c))
  {
    MeetsStep(front, c, id);
    assert c in front + [c];
  }

  lemma OthersUnchanged(rounding: Rounding, front: seq<Contact>, c: Contact, id: string, record: Intersection)
    requires c.textId != id && IsRoundedMax(rounding, front, id, record.overlap) && IsUnion(front, id, record)
    ensures IsRoundedMax(rounding, front + [c], id, record.overlap) && IsUnion(front + [c], id, record)
  {
    MeetsStep(front, c, id);
    assert forall d :: d in front + [c] <==> d in front || d == c;
    hide Meets, MeetsActive;
  }

  /**
   * For any monotone, idempotent rounding the index over a list of contacts holds, for each text id in it, the rounded
   * maximum overlap and the sorted unions of its frames and of its active frames.
   */
  lemma {:induction false} IndexIsMaxAndUnion(rounding: Rounding, contacts: seq<Contact>, id: string)
    requires Monotone(rounding) && Idempotent(rounding)
    ensures Describes(rounding, contacts, id, Indexed(rounding, contacts))
  {
    hide Monotone, Idempotent, IsRoundedMax, IsUnion, Updated, Opened;
    if contacts != [] {
      var front, c := contacts[..|contacts| - 1], contacts[|contacts| - 1];
      IndexIsMaxAndUnion(rounding, front, id);
      assert contacts == front + [c];
      var index := Indexed(rounding, front);
      if c.textId == id {
        if id in index {
          MaxStep(rounding, front, c, id, index[id].overlap);
          UnionStep(front, c, id, index[id], rounding);
          UpdatedOverlap(rounding, index[id], c);
        } else {
          OpenedDescribes(rounding, front, c, id);
        }
      } else if id in index {
        OthersUnchanged(rounding, front, c, id, index[id]);
      }
    }
  }

  lemma UpdatedOverlap(rounding: Rounding, record: Intersection, c: Contact)
    ensures Updated(rounding, record, c).overlap == rounding(MaxReal(record.overlap, c.overlap))
  {
  }

  // ----- The contacts themselves -----

  /** The detection and the row make this contact. */
  predicate MeetAs(d: Detection, row: MasterRow, width: int, height: int, c: Contact) {
    ReadRect(d.geometry).Ok? && ContactOf(ReadRect(d.geometry).value, OrDefault(d.frame, 0), row, width, height) == Some(c)
  }

  lemma {:induction false} ContactsAre(d: Detection, rows: seq<MasterRow>, width: int, height: int, c: Contact)
    requires ReadRect(d.geometry).Ok?
    ensures c in ContactsOf(ReadRect(d.geometry).value, OrDefault(d.frame, 0), rows, width, height) <==>
      exists row :: row in rows && MeetAs(d, row, width, height, c)
  {
    hide ContactOf, ReadRect;
    if rows != [] {
      var front, last := rows[..|rows| - 1], rows[|rows| - 1];
      ContactsAre(d, front, width, height, c);
      assert forall row :: row in rows <==> row in front || row == last by {
        assert rows == front + [last];
      }
      assert MeetAs(d, last, width, height, c) <==>
        ContactOf(ReadRect(d.geometry).value, OrDefault(d.frame, 0), last, width, height) == Some(c);
      hide MeetAs;
    }
  }

  /** The contacts are those of every usable pair; there are none to speak of once a detection has no usable rectangle. */
  lemma {:induction false} AllContactsAre(detections: seq<Detection>, rows: seq<MasterRow>, width: int, height: int, c: Contact)
    ensures var r := AllContacts(detections, rows, width, height);
      && (r.Ok? <==> forall d :: d in detections ==> ReadRect(d.geometry).Ok?)
      && (r.Ok? ==> (c in r.value <==> exists d, row :: d in detections && row in rows && MeetAs(d, row, width, height, c)))
  {
    hide ContactOf, ReadRect, ContactsOf, MeetAs;
    if detections != [] {
      var front, last := detections[..|detections| - 1], detections[|detections| - 1];
      AllContactsAre(front, rows, width, height, c);
      assert forall d :: d in detections <==> d in front || d == last by {
        assert detections == front + [last];
      }
      if ReadRect(last.geometry).Ok? {
        ContactsAre(last, rows, width, height, c);
      }
    }
  }

  // ----- The index over the detections and rows -----

  ghost predicate IsFirst(contacts: seq<Contact>, id: string, k: int) {
    0 <= k < |contacts| && contacts[k].textId == id && forall j :: 0 <= j < k ==> contacts[j].textId != id
  }

  /** The span, the geometry and the text of a record are those of this contact's row. */
  predicate TakenFrom(record: Intersection, c: Contact) {
    record.start == StartOf(c.row) && record.end == EndOf(c.row) && record.geometry == c.geometry && record.text == c.row.text
  }

  /** Later contacts of an id change its overlap and frames, but neither span, geometry nor text. */
  lemma {:induction false} RecordIsOfFirst(rounding: Rounding, contacts: seq<Contact>, id: string)
    requires id in Indexed(rounding, contacts)
    ensures exists k :: IsFirst(contacts, id, k) && TakenFrom(Indexed(rounding, contacts)[id], contacts[k])
  {
    hide Noted, TakenFrom;
    var n := |contacts| - 1;
    var front := contacts[..n];
    NotedRecord(rounding, Indexed(rounding, front), contacts[n], id);
    if id in Indexed(rounding, front) {
      RecordIsOfFirst(rounding, front, id);
      var k :| IsFirst(front, id, k) && TakenFrom(Indexed(rounding, front)[id], front[k]);
      KeptFirst(rounding, Indexed(rounding, front), contacts[n], id, contacts[k]);
      assert IsFirst(contacts, id, k);
    } else {
      NoneBefore(rounding, front, id);
      assert IsFirst(contacts, id, n);
    }
  }

  lemma NotedRecord(rounding: Rounding, index: Index, c: Contact, id: string)
    ensures id in Noted(rounding, index, c) <==> id in index || id == c.textId
    ensures id == c.textId && id !in index ==> TakenFrom(Noted(rounding, index, c)[id], c)
  {
  }

  lemma KeptFirst(rounding: Rounding, index: Index, c: Contact, id: string, first: Contact)
    requires id in index && TakenFrom(index[id], first)
    ensures TakenFrom(Noted(rounding, index, c)[id], first)
  {
    hide SortedDistinct;
  }

  lemma {:induction false} NoneBefore(rounding: Rounding, contacts: seq<Contact>, id: string)
    requires id !in Indexed(rounding, contacts)
    ensures forall k :: 0 <= k < |contacts| ==> contacts[k].textId != id
  {
    hide Noted;
    if contacts != [] {
      var n := |contacts| - 1;
      NotedRecord(rounding, Indexed(rounding, contacts[..n]), contacts[n], id);
      NoneBefore(rounding, contacts[..n], id);
    }
  }

  /** A pair of a detection and a row with this text id meets in this contact. */
  ghost predicate Met(detections: seq<Detection>, rows: seq<MasterRow>, width: int, height: int, id: string, c: Contact) {
    c.textId == id && exists d, row :: d in detections && row in rows && MeetAs(d, row, width, height, c)
  }

  /** The record of an id over all pairs: their largest rounded overlap, and just the frames and active frames they meet on. */
  ghost predicate SumsUp(rounding: Rounding, detections: seq<Detection>, rows: seq<MasterRow>, width: int, height: int, id: string,
                         record: Intersection)
  {
    && (exists c :: Met(detections, rows, width, height, id, c) && record.overlap == rounding(c.overlap))
    && (forall c :: Met(detections, rows, width, height, id, c) ==> rounding(c.overlap) <= record.overlap)
    && StrictlyAscending(record.frames) && StrictlyAscending(record.activeFrames)
    && (forall f :: f in record.frames <==> exists c :: Met(detections, rows, width, height, id, c) && c.frame == f)
    && (forall f :: f in record.activeFrames <==> exists c :: Met(detections, rows, width, height, id, c) && c.frame == f && c.active)
    && (record.active <==> record.activeFrames != [])
  }

  /**
   * The index of detections and rows: a text id has a record exactly when some pair meets under it; the record sums up all
   * such pairs and takes span, geometry and text from the first of them.
   */
  lemma IndexSumsUpPairs(rounding: Rounding, detections: seq<Detection>, rows: seq<MasterRow>, width: int, height: int, id: string)
    requires Monotone(rounding) && Idempotent(rounding) && AllContacts(detections, rows, width, height).Ok?
    ensures var contacts := AllContacts(detections, rows, width, height).value;
      var index := Indexed(rounding, contacts);
      && (id in index <==> exists c :: Met(detections, rows, width, height, id, c))
      && (id in index ==>
            && SumsUp(rounding, detections, rows, width, height, id, index[id])
            && exists k :: IsFirst(contacts, id, k) && TakenFrom(index[id], contacts[k]))
  {
    hide AllContacts, Indexed, Monotone, Idempotent, MeetAs, TakenFrom, StrictlyAscending;
    var contacts := AllContacts(detections, rows, width, height).value;
    var index := Indexed(rounding, contacts);
    IndexIsMaxAndUnion(rounding, contacts, id);
    forall c
      ensures c in contacts && c.textId == id <==> Met(detections, rows, width, height, id, c)
    {
      AllContactsAre(detections, rows, width, height, c);
    }
    if id in index {
      RecordIsOfFirst(rounding, contacts, id);
      RecordSumsUp(rounding, contacts, detections, rows, width, height, id, index[id]);
    }
  }

  lemma RecordSumsUp(rounding: Rounding, contacts: seq<Contact>, detections: seq<Detection>, rows: seq<MasterRow>, width: int, height: int,
                     id: string, record: Intersection)
    requires forall c :: c in contacts && c.textId == id <==> Met(detections, rows, width, height, id, c)
    requires IsRoundedMax(rounding, contacts, id, record.overlap) && IsUnion(contacts, id, record)
    ensures SumsUp(rounding, detections, rows, width, height, id, record)
  {
    hide Met, StrictlyAscending;
  }

  // ----- When a detection and a row meet -----

  /** One axis of a pixel box as a share of the frame. */
  lemma AxisIs(lo: real, hi: real, size: real)
    requires size > 0.0
    ensures lo / size + (hi - lo) / size == hi / size
    ensures lo / size >= 0.0 <==> lo >= 0.0
    ensures (hi - lo) / size > 0.0 <==> hi > lo
    ensures hi / size <= 1.001 <==> hi <= 1.001 * size
    ensures 0.0 + (lo / size) * size == lo && 0.0 + (hi / size) * size == hi
  {
    AddQuotients(lo, hi - lo, size);
    QuotientOrder(lo, 0.0, size);
    QuotientOrder(hi - lo, 0.0, size);
    QuotientOrder(hi, 1.001, size);
  }

  /** The row has a box of pixels with area that begins in the frame and exceeds it by no more than the tolerance. */
  predicate HasPixels(row: MasterRow, width: int, height: int) {
    && row.corners.Some? && width >= 2 && height >= 2
    && var p := row.corners.value;
    && 0.0 <= p.left < p.right <= 1.001 * width as real && 0.0 <= p.top < p.bottom <= 1.001 * height as real
  }

  lemma WhenGeometryIsUsable(row: MasterRow, width: int, height: int)
    ensures var b := NormalizedGeometry(row, width, height);
      && (b.Some? <==> HasPixels(row, width, height))
      && (b.Some? ==> Affine(Corners(b.value), 0.0, 0.0, width as real, height as real) == row.corners.value)
  {
    if row.corners.Some? && width >= 2 && height >= 2 {
      var p, w, h := row.corners.value, width as real, height as real;
      AxisIs(p.left, p.right, w);
      AxisIs(p.top, p.bottom, h);
    }
  }

  /**
   * A detection and a row meet exactly when the row has usable pixels and the detection, scaled to pixels, shares at least 0.05 of
   * the smaller area with them. The contact is active when the row covers the frame; an end of zero or none is the start.
   */
  lemma WhenTheyMeet(rect: Rect, frame: int, row: MasterRow, width: int, height: int)
    ensures var c, scaled := ContactOf(rect, frame, row, width, height), Affine(rect, 0.0, 0.0, width as real, height as real);
      var first := if row.start.Some? then row.start.value else 0;
      var last := if row.end.Some? && row.end.value != 0 then row.end.value else first;
      && (c.Some? <==> HasPixels(row, width, height) && Overlap(scaled, row.corners.value) >= 0.05)
      && (c.Some? ==>
            && c.value.overlap == Overlap(scaled, row.corners.value) && c.value.frame == frame && c.value.row == row
            && c.value.textId == (if row.textId == "" then "unknown" else row.textId) && (c.value.active <==> first <= frame <= last)
            && StartOf(row) == first && EndOf(row) == last
            && Affine(Corners(c.value.geometry), 0.0, 0.0, width as real, height as real) == row.corners.value)
  {
    WhenGeometryIsUsable(row, width, height);
    var b := NormalizedGeometry(row, width, height);
    hide Overlap, Affine, NormalizedGeometry;
    if b.Some? {
      OverlapUnderAffine(rect, Corners(b.value), 0.0, 0.0, width as real, height as real);
    }
  }
}
