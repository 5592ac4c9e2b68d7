/** The image part of a product update: the rows of product_images under the partial unique index on
    (product_id, sort_order) where not orphan, statement by statement. */
module ProductImages {
  import opened Wrappers

  /** Serial keys start at one. */
  type Id = i: int | 0 < i witness 1

  datatype Error = BadRequest | UniqueViolation

  datatype Image = Image(product: Id, key: string, sortOrder: int, orphan: bool)

  type Rows = map<Id, Image>

  /** One image of the request: an existing row by id, or a new file by name. */
  datatype Entry = Entry(id: Option<Id>, sortOrder: nat, fileName: Option<string>)

  const IMAGE_LIMIT: nat := 5

  const OFFSET: nat := 100

  predicate Reuses(e: Entry) {
    e.id.Some? && e.fileName.None?
  }

  predicate Adds(e: Entry) {
    e.fileName.Some?
  }

  // The index.

  predicate Active(rows: Rows, p: Id, id: Id) {
    id in rows && rows[id].product == p && !rows[id].orphan
  }

  ghost predicate IndexHolds(rows: Rows) {
    forall a, b, p :: Active(rows, p, a) && Active(rows, p, b) && a != b ==> rows[a].sortOrder != rows[b].sortOrder
  }

  predicate Taken(rows: Rows, p: Id, sortOrder: int, except: Id) {
    exists id :: id in rows && id != except && Active(rows, p, id) && rows[id].sortOrder == sortOrder
  }

  /** Write one row in use; the index is checked at once. */
  function Put(rows: Rows, id: Id, image: Image): Result<Rows, Error> {
    if Taken(rows, image.product, image.sortOrder, id) then Err(UniqueViolation) else Ok(rows[id := image])
  }

  lemma PutKeepsIndex(rows: Rows, id: Id, image: Image)
    requires IndexHolds(rows) && Put(rows, id, image).Ok? && !image.orphan
    ensures IndexHolds(Put(rows, id, image).value)
  {
    var after := Put(rows, id, image).value;
    forall a, b, p | Active(after, p, a) && Active(after, p, b) && a != b
      ensures after[a].sortOrder != after[b].sortOrder
    {
      assert a != id ==> Active(rows, p, a);
      assert b != id ==> Active(rows, p, b);
    }
  }

  // The shift.

  /** scan lists the rows in use of p in the order in which the update visits them. */
  ghost predicate Scans(scan: seq<Id>, rows: Rows, p: Id) {
    && (forall i, j :: 0 <= i < j < |scan| ==> scan[i] != scan[j])
    && (forall i :: 0 <= i < |scan| ==> Active(rows, p, scan[i]))
    && (forall id :: Active(rows, p, id) ==> id in scan)
  }

  function Shifted(image: Image): Image {
    image.(sortOrder := image.sortOrder + OFFSET)
  }

  /** sort_order + 100 row by row, the index checked at each row. */
  function Shift(rows: Rows, scan: seq<Id>): Result<Rows, Error> {
    if scan == [] then Ok(rows)
    else
      var n := |scan| - 1;
      match Shift(rows, scan[..n])
      case Err(e) => Err(e)
      case Ok(before) => if scan[n] in before then Put(before, scan[n], Shifted(before[scan[n]])) else Ok(before)
  }

  /** Row j of the scan does not hold the value that row i is moved to. */
  predicate Apart(rows: Rows, scan: seq<Id>, i: nat, j: nat)
    requires i < |scan| && j < |scan|
  {
    scan[i] in rows && scan[j] in rows ==> rows[scan[j]].sortOrder != rows[scan[i]].sortOrder + OFFSET
  }

  /** A row visited later does not hold the value that a row visited earlier is moved to. */
  ghost predicate ShiftFits(rows: Rows, scan: seq<Id>) {
    forall i, j :: 0 <= i < j < |scan| ==> Apart(rows, scan, i, j)
  }

  function IdsOf(scan: seq<Id>): set<Id> {
    set i | 0 <= i < |scan| :: scan[i]
  }

  function AllShifted(rows: Rows, ids: set<Id>): Rows {
    map id | id in rows :: if id in ids then Shifted(rows[id]) else rows[id]
  }

  lemma VisitedIff(scan: seq<Id>, k: nat, j: nat)
    requires k <= |scan| && j < |scan| && forall i, j :: 0 <= i < j < |scan| ==> scan[i] != scan[j]
    ensures scan[j] in IdsOf(scan[..k]) <==> j < k
  {
    if j < k {
      assert scan[..k][j] == scan[j];
    }
  }

  lemma OldValuesDiffer(rows: Rows, p: Id, a: Id, b: Id)
    requires IndexHolds(rows) && Active(rows, p, a) && Active(rows, p, b) && a != b
    ensures rows[a].sortOrder != rows[b].sortOrder
  {
  }

  /** The row at position k can be moved exactly when no row still to come holds its new value. */
  lemma NextMoves(rows: Rows, p: Id, scan: seq<Id>, k: nat)
    requires Scans(scan, rows, p) && IndexHolds(rows) && k < |scan|
    ensures Taken(AllShifted(rows, IdsOf(scan[..k])), p, rows[scan[k]].sortOrder + OFFSET, scan[k])
      <==> exists j :: k < j < |scan| && !Apart(rows, scan, k, j)
  {
    var before, target := AllShifted(rows, IdsOf(scan[..k])), rows[scan[k]].sortOrder + OFFSET;
    if Taken(before, p, target, scan[k]) {
      var id :| id in before && id != scan[k] && Active(before, p, id) && before[id].sortOrder == target;
      assert Active(rows, p, id);
      var j :| 0 <= j < |scan| && scan[j] == id;
      VisitedIff(scan, k, j);
      OldValuesDiffer(rows, p, id, scan[k]);
      assert k < j && !Apart(rows, scan, k, j);
    }
    if j :| k < j < |scan| && !Apart(rows, scan, k, j) {
      VisitedIff(scan, k, j);
      assert Active(before, p, scan[j]) && before[scan[j]].sortOrder == target;
    }
  }

  ghost predicate PrefixFits(rows: Rows, scan: seq<Id>, k: nat)
    requires k <= |scan|
  {
    forall i, j :: 0 <= i < k && i < j < |scan| ==> Apart(rows, scan, i, j)
  }

  lemma PrefixFitsNext(rows: Rows, scan: seq<Id>, n: nat)
    requires n < |scan|
    ensures PrefixFits(rows, scan, n + 1)
      <==> PrefixFits(rows, scan, n) && !exists j :: n < j < |scan| && !Apart(rows, scan, n, j)
  {
  }

  lemma ShiftOneMore(rows: Rows, scan: seq<Id>, k: nat)
    requires k < |scan| && scan[k] in rows
    ensures AllShifted(rows, IdsOf(scan[..k + 1])) ==
      AllShifted(rows, IdsOf(scan[..k]))[scan[k] := Shifted(rows[scan[k]])]
  {
    assert IdsOf(scan[..k + 1]) == IdsOf(scan[..k]) + {scan[k]};
  }

  lemma {:induction false} ShiftPrefix(rows: Rows, p: Id, scan: seq<Id>, k: nat)
    requires Scans(scan, rows, p) && IndexHolds(rows) && k <= |scan|
    ensures Shift(rows, scan[..k]) == if PrefixFits(rows, scan, k) then Ok(AllShifted(rows, IdsOf(scan[..k])))
      else Err(UniqueViolation)
  {
    if k == 0 {
      assert AllShifted(rows, IdsOf(scan[..0])) == rows;
    } else {
      var n := k - 1;
      assert scan[..k][..n] == scan[..n];
      assert Active(rows, p, scan[n]);
      ShiftPrefix(rows, p, scan, n);
      NextMoves(rows, p, scan, n);
      VisitedIff(scan, n, n);
      ShiftOneMore(rows, scan, n);
      PrefixFitsNext(rows, scan, n);
    }
  }

  /** The shift meets the index exactly when a row visited earlier is moved onto a row visited later. */
  lemma ShiftSucceedsIff(rows: Rows, p: Id, scan: seq<Id>)
    requires Scans(scan, rows, p) && IndexHolds(rows)
    ensures Shift(rows, scan) == if ShiftFits(rows, scan) then Ok(AllShifted(rows, IdsOf(scan)))
      else Err(UniqueViolation)
  {
    assert scan[..|scan|] == scan;
    ShiftPrefix(rows, p, scan, |scan|);
  }

  /** A scan that visits a before b. */
  lemma ScanInOrder(rows: Rows, p: Id, scan: seq<Id>, a: Id, b: Id) returns (other: seq<Id>, i: nat, j: nat)
    requires Scans(scan, rows, p) && Active(rows, p, a) && Active(rows, p, b) && a != b
    ensures Scans(other, rows, p) && i < j < |other| && other[i] == a && other[j] == b
  {
    i :| 0 <= i < |scan| && scan[i] == a;
    j :| 0 <= j < |scan| && scan[j] == b;
    other := scan;
    if j < i {
      other := scan[i := b][j := a];
      forall id | Active(rows, p, id) ensures id in other {
        var m :| 0 <= m < |scan| && scan[m] == id;
        assert other[if m == i then j else if m == j then i else m] == id;
      }
      i, j := j, i;
    }
  }

  /** The offset of 100 is safe whatever the scan order exactly when no two rows in use differ by 100. */
  lemma OffsetIsSafeIff(rows: Rows, p: Id, scan: seq<Id>)
    requires Scans(scan, rows, p) && IndexHolds(rows)
    ensures (forall other :: Scans(other, rows, p) ==> Shift(rows, other).Ok?) <==>
            (forall a, b :: Active(rows, p, a) && Active(rows, p, b) ==>
              rows[b].sortOrder != rows[a].sortOrder + 100)
  {
    forall other | Scans(other, rows, p) ensures Shift(rows, other).Ok? <==> ShiftFits(rows, other) {
      ShiftSucceedsIff(rows, p, other);
    }
    if a, b :| Active(rows, p, a) && Active(rows, p, b) && rows[b].sortOrder == rows[a].sortOrder + OFFSET {
      var other, i, j := ScanInOrder(rows, p, scan, a, b);
      assert !Apart(rows, other, i, j);
    }
  }

  // The loop over the request.

  /** targets records for each entry so far the row it went to. */
  datatype Work = Work(rows: Rows, next: Id, targets: seq<Option<Id>>)

  function Place(w: Work, p: Id, existing: set<Id>, e: Entry, files: map<nat, string>): Result<Work, Error> {
    if Reuses(e) then
      if e.id.value !in existing || e.id.value !in w.rows then Err(BadRequest)
      else
        match Put(w.rows, e.id.value, w.rows[e.id.value].(sortOrder := e.sortOrder))
        case Err(error) => Err(error)
        case Ok(rows) => Ok(Work(rows, w.next, w.targets + [e.id]))
    else if Adds(e) then
      if e.sortOrder !in files then Err(BadRequest)
      else
        match Put(w.rows, w.next, Image(p, files[e.sortOrder], e.sortOrder, false))
        case Err(error) => Err(error)
        case Ok(rows) => Ok(Work(rows, w.next + 1, w.targets + [Some(w.next)]))
    else Ok(w.(targets := w.targets + [None]))
  }

  function PlaceAll(
      w: Work, p: Id, existing: set<Id>, entries: seq<Entry>, files: map<nat, string>): Result<Work, Error> {
    if entries == [] then Ok(w)
    else
      var n := |entries| - 1;
      match PlaceAll(w, p, existing, entries[..n], files)
      case Err(error) => Err(error)
      case Ok(before) => Place(before, p, existing, entries[n], files)
  }

  function Used(targets: seq<Option<Id>>): set<Id> {
    set i | 0 <= i < |targets| && targets[i].Some? :: targets[i].value
  }

  function Counted(targets: seq<Option<Id>>): nat {
    if targets == [] then 0 else Counted(targets[..|targets| - 1]) + if targets[|targets| - 1].Some? then 1 else 0
  }

  function OrphanUnused(rows: Rows, existing: set<Id>, used: set<Id>): Rows {
    map id | id in rows :: if id in existing && id !in used then rows[id].(orphan := true) else rows[id]
  }

  /** The whole update; an error rolls everything back. */
  function Update(
      rows: Rows, next: Id, p: Id, scan: seq<Id>, entries: seq<Entry>, files: map<nat, string>): Result<Work, Error> {
    match Shift(rows, scan)
    case Err(error) => Err(error)
    case Ok(shifted) =>
      match PlaceAll(Work(shifted, next, []), p, IdsOf(scan), entries, files)
      case Err(error) => Err(error)
      case Ok(w) =>
        if 1 <= Counted(w.targets) <= IMAGE_LIMIT
        then Ok(w.(rows := OrphanUnused(w.rows, IdsOf(scan), Used(w.targets)))) else Err(BadRequest)
  }

  // What the loop leaves.

  /** The last entry that went to the row, or -1. */
  function LastUse(targets: seq<Option<Id>>, id: Id): (k: int)
    ensures -1 <= k < |targets|
    ensures k >= 0 ==> targets[k] == Some(id)
    ensures forall j :: k < j < |targets| ==> targets[j] != Some(id)
  {
    if targets == [] then -1
    else if targets[|targets| - 1] == Some(id) then |targets| - 1
    else LastUse(targets[..|targets| - 1], id)
  }

  /** The row an entry asks for. */
  function Wanted(start: Rows, p: Id, e: Entry, files: map<nat, string>, id: Id): Image {
    if Reuses(e) && id in start then start[id].(sortOrder := e.sortOrder)
    else Image(p, if e.sortOrder in files then files[e.sortOrder] else "", e.sortOrder, false)
  }

  /** Entry j went where it should: a reuse to its own row, a new file to a new row, anything else nowhere. */
  ghost predicate TargetOk(
      start: Rows, next: Id, end: Id, existing: set<Id>, files: map<nat, string>, e: Entry, target: Option<Id>) {
    if Reuses(e) then target == e.id && e.id.value in existing && e.id.value in start
    else if Adds(e) then target.Some? && next <= target.value < end && e.sortOrder in files
    else target == None
  }

  ghost predicate TargetsOk(
      start: Rows, next: Id, existing: set<Id>, entries: seq<Entry>, files: map<nat, string>, w: Work) {
    && |w.targets| == |entries|
    && (forall j :: 0 <= j < |entries| ==> TargetOk(start, next, w.next, existing, files, entries[j], w.targets[j]))
    && (forall i, j :: 0 <= i < j < |entries| && Adds(entries[i]) && Adds(entries[j]) ==> w.targets[i] != w.targets[j])
  }

  ghost predicate Placed(
      start: Rows, next: Id, p: Id, existing: set<Id>, entries: seq<Entry>, files: map<nat, string>, w: Work) {
    && next <= w.next
    && TargetsOk(start, next, existing, entries, files, w)
    && (forall id :: id in w.rows <==> id in start || next <= id < w.next)
    && (forall id :: id in w.rows ==> RowOk(start, p, entries, files, w, id))
  }

  ghost predicate RowOk(start: Rows, p: Id, entries: seq<Entry>, files: map<nat, string>, w: Work, id: Id)
    requires id in w.rows && |w.targets| == |entries|
  {
    var k := LastUse(w.targets, id);
    if k == -1 then id in start && w.rows[id] == start[id] else w.rows[id] == Wanted(start, p, entries[k], files, id)
  }

  lemma LastUseNext(targets: seq<Option<Id>>, target: Option<Id>, id: Id)
    ensures LastUse(targets + [target], id) == if target == Some(id) then |targets| else LastUse(targets, id)
  {
    assert (targets + [target])[..|targets|] == targets;
  }

  lemma PlaceKeepsTargets(
      start: Rows, next: Id, p: Id, existing: set<Id>, entries: seq<Entry>, files: map<nat, string>, w: Work, e: Entry)
    requires TargetsOk(start, next, existing, entries, files, w) && Place(w, p, existing, e, files).Ok?
    requires next <= w.next && existing <= start.Keys
    ensures TargetsOk(start, next, existing, entries + [e], files, Place(w, p, existing, e, files).value)
  {
    var after, all := Place(w, p, existing, e, files).value, entries + [e];
    forall j | 0 <= j < |all| ensures TargetOk(start, next, after.next, existing, files, all[j], after.targets[j]) {
      if j < |entries| {
        assert TargetOk(start, next, w.next, existing, files, entries[j], w.targets[j]);
      }
    }
    forall i, j | 0 <= i < j < |all| && Adds(all[i]) && Adds(all[j]) ensures after.targets[i] != after.targets[j] {
      assert TargetOk(start, next, w.next, existing, files, entries[i], w.targets[i]);
    }
  }

  /** An existing row is only ever reused, so nothing but its position has changed. */
  lemma StartRowMoved(
      start: Rows, next: Id, p: Id, existing: set<Id>, entries: seq<Entry>, files: map<nat, string>, w: Work, id: Id)
    requires Placed(start, next, p, existing, entries, files, w) && id in start && id < next
    ensures id in w.rows && exists position :: w.rows[id] == start[id].(sortOrder := position)
  {
    var k := LastUse(w.targets, id);
    assert RowOk(start, p, entries, files, w, id);
    if k >= 0 {
      assert TargetOk(start, next, w.next, existing, files, entries[k], w.targets[k]);
    } else {
      assert w.rows[id] == start[id].(sortOrder := start[id].sortOrder);
    }
  }

  lemma PlaceKeepsRow(
      start: Rows, next: Id, p: Id, existing: set<Id>, entries: seq<Entry>, files: map<nat, string>, w: Work, e: Entry,
      id: Id)
    requires Placed(start, next, p, existing, entries, files, w) && Place(w, p, existing, e, files).Ok?
    requires existing <= start.Keys && id in Place(w, p, existing, e, files).value.rows
    requires forall id :: id in start ==> id < next
    ensures |Place(w, p, existing, e, files).value.targets| == |entries + [e]|
    ensures RowOk(start, p, entries + [e], files, Place(w, p, existing, e, files).value, id)
  {
    var after := Place(w, p, existing, e, files).value;
    var target := if Reuses(e) then e.id else if Adds(e) then Some(w.next) else None;
    if target == Some(id) && Reuses(e) {
      StartRowMoved(start, next, p, existing, entries, files, w, id);
    }
    RowAfter(start, p, entries, files, w, after, e, target, id);
  }

  lemma RowAfter(
      start: Rows, p: Id, entries: seq<Entry>, files: map<nat, string>, w: Work, after: Work, e: Entry,
      target: Option<Id>, id: Id)
    requires |w.targets| == |entries| && after.targets == w.targets + [target] && id in after.rows
    requires target != Some(id) ==>
      id in w.rows && after.rows[id] == w.rows[id] && RowOk(start, p, entries, files, w, id)
    requires target == Some(id) ==> after.rows[id] == Wanted(start, p, e, files, id)
    ensures RowOk(start, p, entries + [e], files, after, id)
  {
    LastUseNext(w.targets, target, id);
  }

  lemma PlaceAddsOneKey(w: Work, p: Id, existing: set<Id>, e: Entry, files: map<nat, string>)
    requires Place(w, p, existing, e, files).Ok?
    ensures var after := Place(w, p, existing, e, files).value;
      if after.next == w.next then after.rows.Keys == w.rows.Keys
        else after.next == w.next + 1 && after.rows.Keys == w.rows.Keys + {w.next}
  {
  }

  lemma PlaceKeepsPlaced(
      start: Rows, next: Id, p: Id, existing: set<Id>, entries: seq<Entry>, files: map<nat, string>, w: Work, e: Entry)
    requires Placed(start, next, p, existing, entries, files, w) && Place(w, p, existing, e, files).Ok?
    requires existing <= start.Keys && forall id :: id in start ==> id < next
    ensures Placed(start, next, p, existing, entries + [e], files, Place(w, p, existing, e, files).value)
  {
    var after := Place(w, p, existing, e, files).value;
    PlaceKeepsTargets(start, next, p, existing, entries, files, w, e);
    PlaceAddsOneKey(w, p, existing, e, files);
    forall id | id in after.rows ensures RowOk(start, p, entries + [e], files, after, id) {
      PlaceKeepsRow(start, next, p, existing, entries, files, w, e, id);
    }
  }

  lemma {:induction false} AllPlaced(
      start: Rows, next: Id, p: Id, existing: set<Id>, entries: seq<Entry>, files: map<nat, string>)
    requires existing <= start.Keys && (forall id :: id in start ==> id < next)
    requires PlaceAll(Work(start, next, []), p, existing, entries, files).Ok?
    ensures Placed(start, next, p, existing, entries, files,
      PlaceAll(Work(start, next, []), p, existing, entries, files).value)
  {
    if entries != [] {
      var n := |entries| - 1;
      AllPlaced(start, next, p, existing, entries[..n], files);
      assert entries == entries[..n] + [entries[n]];
      PlaceKeepsPlaced(start, next, p, existing, entries[..n], files,
                       PlaceAll(Work(start, next, []), p, existing, entries[..n], files).value, entries[n]);
    }
  }

  // Exactly when the loop succeeds.

  ghost predicate ReferenceOk(existing: set<Id>, files: map<nat, string>, e: Entry) {
    if Reuses(e) then e.id.value in existing else Adds(e) ==> e.sortOrder in files
  }

  /** A row shifted onto the position of entry k has been reused by then. */
  ghost predicate NoClash(start: Rows, existing: set<Id>, entries: seq<Entry>, k: nat)
    requires k < |entries|
  {
    Reuses(entries[k]) || Adds(entries[k]) ==>
      forall r :: r in existing && r in start && start[r].sortOrder == entries[k].sortOrder ==> ReusedBy(entries, r, k)
  }

  ghost predicate ReusedBy(entries: seq<Entry>, r: Id, k: nat)
    requires k < |entries|
  {
    exists j :: 0 <= j <= k && Reuses(entries[j]) && entries[j].id == Some(r)
  }

  ghost predicate DistinctPositions(entries: seq<Entry>) {
    forall i, j :: 0 <= i < j < |entries| ==> entries[i].sortOrder != entries[j].sortOrder
  }

  /** existing is the set of rows of p in use. */
  ghost predicate InUse(start: Rows, p: Id, existing: set<Id>) {
    forall id :: id in existing <==> Active(start, p, id)
  }

  lemma UsedIff(
      start: Rows, next: Id, p: Id, existing: set<Id>, entries: seq<Entry>, files: map<nat, string>, w: Work, r: Id,
      k: nat)
    requires k < |entries| && Placed(start, next, p, existing, entries[..k], files, w) && r in start
    requires forall id :: id in start ==> id < next
    ensures LastUse(w.targets, r) >= 0 <==> exists j :: 0 <= j < k && Reuses(entries[j]) && entries[j].id == Some(r)
  {
    var last := LastUse(w.targets, r);
    if last >= 0 {
      assert TargetOk(start, next, w.next, existing, files, entries[..k][last], w.targets[last]);
    }
    if j :| 0 <= j < k && Reuses(entries[j]) && entries[j].id == Some(r) {
      assert TargetOk(start, next, w.next, existing, files, entries[..k][j], w.targets[j]);
    }
  }

  lemma UsedPosition(start: Rows, p: Id, entries: seq<Entry>, files: map<nat, string>, w: Work, k: nat, id: Id)
    requires k <= |entries| && |w.targets| == k && id in w.rows && RowOk(start, p, entries[..k], files, w, id)
    requires LastUse(w.targets, id) >= 0
    ensures w.rows[id].sortOrder == entries[LastUse(w.targets, id)].sortOrder
  {
  }

  lemma TakenByUnused(
      start: Rows, next: Id, p: Id, existing: set<Id>, entries: seq<Entry>, files: map<nat, string>, w: Work, k: nat,
      target: Id)
    requires k < |entries| && Placed(start, next, p, existing, entries[..k], files, w) && InUse(start, p, existing)
    requires DistinctPositions(entries) && forall id :: id in start ==> id < next
    requires Reuses(entries[k]) ==> entries[k].id == Some(target)
    requires Taken(w.rows, p, entries[k].sortOrder, target)
    ensures exists r ::
      r in existing && r in start && start[r].sortOrder == entries[k].sortOrder && !ReusedBy(entries, r, k)
  {
    var id :| id in w.rows && id != target && Active(w.rows, p, id) && w.rows[id].sortOrder == entries[k].sortOrder;
    assert RowOk(start, p, entries[..k], files, w, id);
    if LastUse(w.targets, id) >= 0 {
      UsedPosition(start, p, entries, files, w, k, id);
    }
    UsedIff(start, next, p, existing, entries, files, w, id, k);
    assert Active(start, p, id) && !ReusedBy(entries, id, k);
  }

  lemma UnusedTakes(
      start: Rows, next: Id, p: Id, existing: set<Id>, entries: seq<Entry>, files: map<nat, string>, w: Work, k: nat,
      target: Id, r: Id)
    requires k < |entries| && Placed(start, next, p, existing, entries[..k], files, w) && InUse(start, p, existing)
    requires forall id :: id in start ==> id < next
    requires if Reuses(entries[k]) then entries[k].id == Some(target) else target == w.next
    requires r in existing && r in start && start[r].sortOrder == entries[k].sortOrder && !ReusedBy(entries, r, k)
    ensures Taken(w.rows, p, entries[k].sortOrder, target)
  {
    UsedIff(start, next, p, existing, entries, files, w, r, k);
    assert RowOk(start, p, entries[..k], files, w, r);
    assert Active(start, p, r) && r != target;
    assert Active(w.rows, p, r);
  }

  /** The position of entry k is taken exactly by a shifted row that no entry up to k reuses. */
  lemma TakenIff(
      start: Rows, next: Id, p: Id, existing: set<Id>, entries: seq<Entry>, files: map<nat, string>, w: Work, k: nat,
      target: Id)
    requires k < |entries| && Placed(start, next, p, existing, entries[..k], files, w) && InUse(start, p, existing)
    requires DistinctPositions(entries) && forall id :: id in start ==> id < next
    requires if Reuses(entries[k]) then entries[k].id == Some(target) else Adds(entries[k]) && target == w.next
    ensures Taken(w.rows, p, entries[k].sortOrder, target) <==> !NoClash(start, existing, entries, k)
  {
    if Taken(w.rows, p, entries[k].sortOrder, target) {
      TakenByUnused(start, next, p, existing, entries, files, w, k, target);
    }
    if !NoClash(start, existing, entries, k) {
      var r :| r in existing && r in start && start[r].sortOrder == entries[k].sortOrder && !ReusedBy(entries, r, k);
      UnusedTakes(start, next, p, existing, entries, files, w, k, target, r);
    }
  }

  lemma PlaceSucceedsIff(
      start: Rows, next: Id, p: Id, existing: set<Id>, entries: seq<Entry>, files: map<nat, string>, w: Work, k: nat)
    requires k < |entries| && Placed(start, next, p, existing, entries[..k], files, w) && InUse(start, p, existing)
    requires DistinctPositions(entries) && forall id :: id in start ==> id < next
    ensures Place(w, p, existing, entries[k], files).Ok?
      <==> ReferenceOk(existing, files, entries[k]) && NoClash(start, existing, entries, k)
  {
    var e := entries[k];
    if Reuses(e) && e.id.value in existing {
      assert Active(start, p, e.id.value);
      StartRowMoved(start, next, p, existing, entries[..k], files, w, e.id.value);
      TakenIff(start, next, p, existing, entries, files, w, k, e.id.value);
    } else if Adds(e) {
      TakenIff(start, next, p, existing, entries, files, w, k, w.next);
    }
  }

  ghost predicate PrefixOk(start: Rows, existing: set<Id>, entries: seq<Entry>, files: map<nat, string>, k: nat)
    requires k <= |entries|
  {
    forall j :: 0 <= j < k ==> ReferenceOk(existing, files, entries[j]) && NoClash(start, existing, entries, j)
  }

  lemma {:induction false} PlaceAllSucceedsIff(
      start: Rows, next: Id, p: Id, existing: set<Id>, entries: seq<Entry>, files: map<nat, string>, k: nat)
    requires k <= |entries| && InUse(start, p, existing) && DistinctPositions(entries) && forall id :: id in start ==>
      id < next
    ensures PlaceAll(Work(start, next, []), p, existing, entries[..k], files).Ok?
      <==> PrefixOk(start, existing, entries, files, k)
  {
    if k > 0 {
      assert entries[..k][..k - 1] == entries[..k - 1];
      PlaceAllSucceedsIff(start, next, p, existing, entries, files, k - 1);
      assert PrefixOk(start, existing, entries, files, k) <==>
        PrefixOk(start, existing, entries, files, k - 1) && ReferenceOk(existing, files, entries[k - 1])
          && NoClash(start, existing, entries, k - 1);
      if PrefixOk(start, existing, entries, files, k - 1) {
        forall id | id in existing ensures id in start {
          assert Active(start, p, id);
        }
        AllPlaced(start, next, p, existing, entries[..k - 1], files);
        PlaceSucceedsIff(start, next, p, existing, entries, files,
                         PlaceAll(Work(start, next, []), p, existing, entries[..k - 1], files).value, k - 1);
      }
    }
  }

  /** The number of entries that reuse a row or add a file. */
  function Images(entries: seq<Entry>): nat {
    if entries == [] then 0
    else
      var n := |entries| - 1;
      Images(entries[..n]) + if entries[n].id.Some? || entries[n].fileName.Some? then 1 else 0
  }

  lemma {:induction false} CountedIsImages(entries: seq<Entry>, targets: seq<Option<Id>>)
    requires |targets| == |entries| && forall j :: 0 <= j < |entries| ==>
      (targets[j].Some? <==> Reuses(entries[j]) || Adds(entries[j]))
    ensures Counted(targets) == Images(entries)
  {
    if entries != [] {
      CountedIsImages(entries[..|entries| - 1], targets[..|entries| - 1]);
    }
  }

  lemma PlacedIsCounted(
      start: Rows, next: Id, p: Id, existing: set<Id>, entries: seq<Entry>, files: map<nat, string>, w: Work)
    requires Placed(start, next, p, existing, entries, files, w)
    ensures Counted(w.targets) == Images(entries)
  {
    forall j | 0 <= j < |entries| ensures w.targets[j].Some? <==> Reuses(entries[j]) || Adds(entries[j]) {
      assert TargetOk(start, next, w.next, existing, files, entries[j], w.targets[j]);
    }
    CountedIsImages(entries, w.targets);
  }

  lemma ScanIsInUse(rows: Rows, p: Id, scan: seq<Id>)
    requires Scans(scan, rows, p)
    ensures InUse(AllShifted(rows, IdsOf(scan)), p, IdsOf(scan)) && IdsOf(scan) <= rows.Keys
  {
    forall id ensures id in IdsOf(scan) <==> Active(rows, p, id) {
      if Active(rows, p, id) {
        var i :| 0 <= i < |scan| && scan[i] == id;
      }
    }
    forall id ensures Active(AllShifted(rows, IdsOf(scan)), p, id) <==> Active(rows, p, id) {
    }
  }

  /** Exactly when the update of the images succeeds. */
  lemma UpdateSucceedsIff(rows: Rows, next: Id, p: Id, scan: seq<Id>, entries: seq<Entry>, files: map<nat, string>)
    requires IndexHolds(rows) && Scans(scan, rows, p) && DistinctPositions(entries) && forall id :: id in rows ==>
      id < next
    ensures Update(rows, next, p, scan, entries, files).Ok? <==>
      && ShiftFits(rows, scan)
      && PrefixOk(AllShifted(rows, IdsOf(scan)), IdsOf(scan), entries, files, |entries|)
      && 1 <= Images(entries) <= 5
  {
    ShiftSucceedsIff(rows, p, scan);
    if ShiftFits(rows, scan) {
      var start, existing := AllShifted(rows, IdsOf(scan)), IdsOf(scan);
      ScanIsInUse(rows, p, scan);
      PlaceAllSucceedsIff(start, next, p, existing, entries, files, |entries|);
      assert entries[..|entries|] == entries;
      if PlaceAll(Work(start, next, []), p, existing, entries, files).Ok? {
        AllPlaced(start, next, p, existing, entries, files);
        PlacedIsCounted(start, next, p, existing, entries, files,
          PlaceAll(Work(start, next, []), p, existing, entries, files).value);
      }
    }
  }

  /** The first entry that cannot be placed decides the error: a bad request when its reference is wrong,
      the unique index otherwise. */
  lemma FirstFailureDecides(
      rows: Rows, next: Id, p: Id, scan: seq<Id>, entries: seq<Entry>, files: map<nat, string>, k: nat)
    requires IndexHolds(rows) && Scans(scan, rows, p) && DistinctPositions(entries)
    requires forall id :: id in rows ==> id < next
    requires ShiftFits(rows, scan) && k < |entries|
    requires PrefixOk(AllShifted(rows, IdsOf(scan)), IdsOf(scan), entries, files, k)
    requires !PrefixOk(AllShifted(rows, IdsOf(scan)), IdsOf(scan), entries, files, k + 1)
    ensures Update(rows, next, p, scan, entries, files) ==
      Err(if ReferenceOk(IdsOf(scan), files, entries[k]) then UniqueViolation else BadRequest)
  {
    var start, existing := AllShifted(rows, IdsOf(scan)), IdsOf(scan);
    ShiftSucceedsIff(rows, p, scan);
    ScanIsInUse(rows, p, scan);
    PlaceAllSucceedsIff(start, next, p, existing, entries, files, k);
    AllPlaced(start, next, p, existing, entries[..k], files);
    PlaceFailure(start, next, p, existing, entries, files, k);
    PlacingStops(Work(start, next, []), p, existing, entries, files, k + 1);
  }

  lemma PlaceFailure(
      start: Rows, next: Id, p: Id, existing: set<Id>, entries: seq<Entry>, files: map<nat, string>, k: nat)
    requires k < |entries| && InUse(start, p, existing) && DistinctPositions(entries)
    requires forall id :: id in start ==> id < next
    requires PlaceAll(Work(start, next, []), p, existing, entries[..k], files).Ok?
    requires Placed(start, next, p, existing, entries[..k], files,
      PlaceAll(Work(start, next, []), p, existing, entries[..k], files).value)
    requires !(ReferenceOk(existing, files, entries[k]) && NoClash(start, existing, entries, k))
    ensures PlaceAll(Work(start, next, []), p, existing, entries[..k + 1], files) ==
      Err(if ReferenceOk(existing, files, entries[k]) then UniqueViolation else BadRequest)
  {
    var w := PlaceAll(Work(start, next, []), p, existing, entries[..k], files).value;
    assert entries[..k + 1][..k] == entries[..k];
    PlaceSucceedsIff(start, next, p, existing, entries, files, w, k);
    if Reuses(entries[k]) && entries[k].id.value in existing {
      assert Active(start, p, entries[k].id.value);
      StartRowMoved(start, next, p, existing, entries[..k], files, w, entries[k].id.value);
    }
  }

  /** With every entry placed, the number of images is the last thing that can fail. */
  lemma WrongNumberIsRefused(
      rows: Rows, next: Id, p: Id, scan: seq<Id>, entries: seq<Entry>, files: map<nat, string>)
    requires IndexHolds(rows) && Scans(scan, rows, p) && DistinctPositions(entries)
    requires forall id :: id in rows ==> id < next
    requires ShiftFits(rows, scan) && !(1 <= Images(entries) <= 5)
    requires PrefixOk(AllShifted(rows, IdsOf(scan)), IdsOf(scan), entries, files, |entries|)
    ensures Update(rows, next, p, scan, entries, files) == Err(BadRequest)
  {
    var start, existing := AllShifted(rows, IdsOf(scan)), IdsOf(scan);
    ShiftSucceedsIff(rows, p, scan);
    ScanIsInUse(rows, p, scan);
    assert entries[..|entries|] == entries;
    PlaceAllSucceedsIff(start, next, p, existing, entries, files, |entries|);
    AllPlaced(start, next, p, existing, entries, files);
    PlacedIsCounted(start, next, p, existing, entries, files,
      PlaceAll(Work(start, next, []), p, existing, entries, files).value);
  }

  /** With all positions below the offset no statement meets the index: only a wrong reference or the
      number of images makes the update fail. */
  lemma SmallPositionsNeverClash(
      rows: Rows, next: Id, p: Id, scan: seq<Id>, entries: seq<Entry>, files: map<nat, string>)
    requires IndexHolds(rows) && Scans(scan, rows, p) && DistinctPositions(entries) && forall id :: id in rows ==>
      id < next
    requires forall id :: Active(rows, p, id) ==> 0 <= rows[id].sortOrder < 100
    requires forall k :: 0 <= k < |entries| ==> entries[k].sortOrder < 100
    ensures Update(rows, next, p, scan, entries, files).Ok? <==>
      && (forall k :: 0 <= k < |entries| ==> ReferenceOk(IdsOf(scan), files, entries[k]))
      && 1 <= Images(entries) <= 5
  {
    UpdateSucceedsIff(rows, next, p, scan, entries, files);
    forall i, j | 0 <= i < j < |scan| ensures Apart(rows, scan, i, j) {
      assert Active(rows, p, scan[i]) && Active(rows, p, scan[j]);
    }
    forall k | 0 <= k < |entries| ensures NoClash(AllShifted(rows, IdsOf(scan)), IdsOf(scan), entries, k) {
      forall r | r in IdsOf(scan) ensures AllShifted(rows, IdsOf(scan))[r].sortOrder >= OFFSET {
        assert Active(rows, p, r);
      }
    }
  }

  /** Two rows in use at positions 0 and 100, which the request schema admits: a later update that visits
      the first row first fails whatever it asks for. */
  lemma AHundredApartIsStuck(next: Id, entries: seq<Entry>, files: map<nat, string>)
    ensures var rows := map[1 := Image(7, "a", 0, false), 2 := Image(7, "b", 100, false)];
      IndexHolds(rows) && Scans([1, 2], rows, 7)
        && Update(rows, next, 7, [1, 2], entries, files) == Err(UniqueViolation)
  {
    var rows, scan := map[1 := Image(7, "a", 0, false), 2 := Image(7, "b", 100, false)], [1, 2];
    assert scan[0] == 1 && scan[1] == 2;
    ShiftSucceedsIff(rows, 7, scan);
    assert !Apart(rows, scan, 0, 1);
  }

  // What the update leaves.

  lemma ShiftKeepsIndex(rows: Rows, p: Id, scan: seq<Id>)
    requires IndexHolds(rows) && Scans(scan, rows, p)
    ensures IndexHolds(AllShifted(rows, IdsOf(scan)))
  {
    var after := AllShifted(rows, IdsOf(scan));
    forall a, b, q | Active(after, q, a) && Active(after, q, b) && a != b
      ensures after[a].sortOrder != after[b].sortOrder
    {
      assert Active(rows, q, a) && Active(rows, q, b);
      ScanIsInUse(rows, p, scan);
    }
  }

  lemma PlaceKeepsIndex(
      start: Rows, next: Id, p: Id, existing: set<Id>, entries: seq<Entry>, files: map<nat, string>, w: Work, e: Entry)
    requires Placed(start, next, p, existing, entries, files, w) && InUse(start, p, existing)
    requires forall id :: id in start ==>
      id < next
    requires IndexHolds(w.rows) && Place(w, p, existing, e, files).Ok?
    ensures IndexHolds(Place(w, p, existing, e, files).value.rows)
  {
    if Reuses(e) {
      assert Active(start, p, e.id.value);
      StartRowMoved(start, next, p, existing, entries, files, w, e.id.value);
      PutKeepsIndex(w.rows, e.id.value, w.rows[e.id.value].(sortOrder := e.sortOrder));
    } else if Adds(e) {
      PutKeepsIndex(w.rows, w.next, Image(p, files[e.sortOrder], e.sortOrder, false));
    }
  }

  /** After each entry the positions in use are pairwise distinct. */
  lemma {:induction false} EachEntryKeepsIndex(
      start: Rows, next: Id, p: Id, existing: set<Id>, entries: seq<Entry>, files: map<nat, string>)
    requires IndexHolds(start) && InUse(start, p, existing) && forall id :: id in start ==> id < next
    requires PlaceAll(Work(start, next, []), p, existing, entries, files).Ok?
    ensures IndexHolds(PlaceAll(Work(start, next, []), p, existing, entries, files).value.rows)
  {
    if entries != [] {
      var n := |entries| - 1;
      EachEntryKeepsIndex(start, next, p, existing, entries[..n], files);
      forall id | id in existing ensures id in start {
        assert Active(start, p, id);
      }
      AllPlaced(start, next, p, existing, entries[..n], files);
      PlaceKeepsIndex(start, next, p, existing, entries[..n], files,
                      PlaceAll(Work(start, next, []), p, existing, entries[..n], files).value, entries[n]);
    }
  }

  /** What a successful update leaves of one row: a row some entry went to is as the last such entry asks;
      a row in use before that no entry reused is an orphan; every other row is as it was. */
  ghost predicate OutcomeOf(rows: Rows, p: Id, entries: seq<Entry>, files: map<nat, string>, w: Work, id: Id)
    requires id in w.rows && |w.targets| == |entries|
  {
    var k := LastUse(w.targets, id);
    if k >= 0 && entries[k].fileName == None
      then Active(rows, p, id) && w.rows[id] == rows[id].(sortOrder := entries[k].sortOrder)
    else if k >= 0 then id !in rows && entries[k].sortOrder in files
      && w.rows[id] == Image(p, files[entries[k].sortOrder], entries[k].sortOrder, false)
    else
      id in rows && w.rows[id] ==
        if rows[id].product == p && !rows[id].orphan
        then rows[id].(sortOrder := rows[id].sortOrder + 100, orphan := true) else rows[id]
  }

  lemma LastUseIsUsed(targets: seq<Option<Id>>, id: Id)
    ensures LastUse(targets, id) >= 0 <==> id in Used(targets)
  {
    if id in Used(targets) {
      var i :| 0 <= i < |targets| && targets[i].Some? && targets[i].value == id;
    }
  }

  lemma UpdateOutcomeAt(
      rows: Rows, next: Id, p: Id, scan: seq<Id>, entries: seq<Entry>, files: map<nat, string>, before: Work, w: Work,
      id: Id)
    requires Scans(scan, rows, p) && forall id :: id in rows ==> id < next
    requires Placed(AllShifted(rows, IdsOf(scan)), next, p, IdsOf(scan), entries, files, before)
    requires w == before.(rows := OrphanUnused(before.rows, IdsOf(scan), Used(before.targets))) && id in w.rows
    ensures OutcomeOf(rows, p, entries, files, w, id)
  {
    var start := AllShifted(rows, IdsOf(scan));
    var k := LastUse(w.targets, id);
    ScanIsInUse(rows, p, scan);
    LastUseIsUsed(w.targets, id);
    assert RowOk(start, p, entries, files, before, id);
    if k >= 0 {
      assert TargetOk(start, next, before.next, IdsOf(scan), files, entries[k], before.targets[k]);
    }
  }

  lemma OrphaningKeepsIndex(rows: Rows, existing: set<Id>, used: set<Id>)
    requires IndexHolds(rows)
    ensures IndexHolds(OrphanUnused(rows, existing, used))
  {
    var after := OrphanUnused(rows, existing, used);
    forall a, b, p | Active(after, p, a) && Active(after, p, b) && a != b
      ensures after[a].sortOrder != after[b].sortOrder
    {
      assert Active(rows, p, a) && Active(rows, p, b);
    }
  }

  /** Every row is as OutcomeOf says, the rows of the product in use are exactly those the entries went
      to, a reuse went to its own row and each new file to a new row of its own. */
  ghost predicate Left(rows: Rows, p: Id, entries: seq<Entry>, files: map<nat, string>, w: Work) {
    && |w.targets| == |entries|
    && (forall id :: id in w.rows ==> OutcomeOf(rows, p, entries, files, w, id))
    && (forall id :: Active(w.rows, p, id) <==> id in Used(w.targets))
    && (forall j :: 0 <= j < |entries| ==> WentRight(rows, entries[j], w.targets[j]))
    && (forall i, j :: 0 <= i < j < |entries| && Adds(entries[i]) && Adds(entries[j]) ==> w.targets[i] != w.targets[j])
  }

  ghost predicate WentRight(rows: Rows, e: Entry, target: Option<Id>) {
    if e.fileName.Some? then target.Some? && target.value !in rows
    else if e.id.Some? then target == e.id && e.id.value in rows
    else target == None
  }

  lemma UsedRowsAreActive(
      rows: Rows, next: Id, p: Id, scan: seq<Id>, entries: seq<Entry>, files: map<nat, string>, before: Work, w: Work,
      id: Id)
    requires Scans(scan, rows, p) && forall id :: id in rows ==> id < next
    requires Placed(AllShifted(rows, IdsOf(scan)), next, p, IdsOf(scan), entries, files, before)
    requires w == before.(rows := OrphanUnused(before.rows, IdsOf(scan), Used(before.targets)))
    ensures Active(w.rows, p, id) <==> id in Used(w.targets)
  {
    ScanIsInUse(rows, p, scan);
    LastUseIsUsed(w.targets, id);
    if id in Used(w.targets) {
      var i :| 0 <= i < |w.targets| && w.targets[i] == Some(id);
      assert TargetOk(AllShifted(rows, IdsOf(scan)), next, before.next, IdsOf(scan), files, entries[i],
        before.targets[i]);
    }
    if id in w.rows {
      UpdateOutcomeAt(rows, next, p, scan, entries, files, before, w, id);
    }
  }

  ghost predicate TargetsOnce(targets: seq<Option<Id>>) {
    forall i, j :: 0 <= i < j < |targets| && targets[i].Some? && targets[j].Some? ==> targets[i] != targets[j]
  }

  /** As many rows are used as entries counted, when no row is used twice, and fewer otherwise. */
  lemma {:induction false} UsedSize(targets: seq<Option<Id>>)
    ensures |Used(targets)| <= Counted(targets)
    ensures |Used(targets)| == Counted(targets) <==> TargetsOnce(targets)
  {
    if targets != [] {
      var n := |targets| - 1;
      var rest := targets[..n];
      assert targets == rest + [targets[n]];
      UsedSize(rest);
      UsedNext(rest, targets[n]);
      TargetsOnceNext(targets);
    }
  }

  lemma TargetsOnceNext(targets: seq<Option<Id>>)
    requires targets != []
    ensures var n := |targets| - 1;
      TargetsOnce(targets) <==>
      TargetsOnce(targets[..n]) && (targets[n].Some? ==> targets[n].value !in Used(targets[..n]))
  {
    var n := |targets| - 1;
    if targets[n].Some? && targets[n].value in Used(targets[..n]) {
      var i :| 0 <= i < n && targets[..n][i].Some? && targets[..n][i].value == targets[n].value;
      assert targets[i] == targets[n];
    }
    forall i | 0 <= i < n && targets[i].Some? ensures targets[i].value in Used(targets[..n]) {
      assert targets[..n][i] == targets[i];
    }
  }

  lemma TargetsOnceIff(rows: Rows, p: Id, entries: seq<Entry>, files: map<nat, string>, w: Work)
    requires Left(rows, p, entries, files, w)
    ensures TargetsOnce(w.targets) <==> ReusedOnce(entries)
  {
    forall j | 0 <= j < |entries| ensures WentRight(rows, entries[j], w.targets[j]) {
    }
    if i, j :| 0 <= i < j < |entries| && Reuses(entries[i]) && Reuses(entries[j]) && entries[i].id == entries[j].id {
      assert WentRight(rows, entries[i], w.targets[i]) && WentRight(rows, entries[j], w.targets[j]);
    }
    if i, j :| 0 <= i < j < |w.targets| && w.targets[i].Some? && w.targets[j].Some? && w.targets[i] == w.targets[j] {
      assert WentRight(rows, entries[i], w.targets[i]) && WentRight(rows, entries[j], w.targets[j]);
    }
  }

  /** Between one and five rows of the product are in use after a successful update, as many as entries
      counted exactly when no row is reused twice. */
  lemma RowsInUse(rows: Rows, next: Id, p: Id, scan: seq<Id>, entries: seq<Entry>, files: map<nat, string>)
    requires IndexHolds(rows) && Scans(scan, rows, p) && forall id :: id in rows ==> id < next
    requires Update(rows, next, p, scan, entries, files).Ok?
    ensures var w := Update(rows, next, p, scan, entries, files).value;
      && (forall id :: Active(w.rows, p, id) <==> id in Used(w.targets))
      && 1 <= |Used(w.targets)| <= 5
      && (|Used(w.targets)| == Images(entries) <==> ReusedOnce(entries))
  {
    var w := Update(rows, next, p, scan, entries, files).value;
    UpdateOutcome(rows, next, p, scan, entries, files);
    forall j | 0 <= j < |entries| ensures w.targets[j].Some? <==> Reuses(entries[j]) || Adds(entries[j]) {
      assert WentRight(rows, entries[j], w.targets[j]);
    }
    CountedIsImages(entries, w.targets);
    UsedSize(w.targets);
    TargetsOnceIff(rows, p, entries, files, w);
    SomeTarget(w.targets);
  }

  lemma {:induction false} SomeTarget(targets: seq<Option<Id>>)
    requires Counted(targets) >= 1
    ensures Used(targets) != {}
  {
    var n := |targets| - 1;
    if targets[n].Some? {
      assert targets[n].value in Used(targets);
    } else {
      SomeTarget(targets[..n]);
      var id :| id in Used(targets[..n]);
      var i :| 0 <= i < n && targets[..n][i].Some? && targets[..n][i].value == id;
      assert targets[i].value in Used(targets);
    }
  }

  /** What a successful update leaves. */
  lemma UpdateOutcome(rows: Rows, next: Id, p: Id, scan: seq<Id>, entries: seq<Entry>, files: map<nat, string>)
    requires IndexHolds(rows) && Scans(scan, rows, p) && forall id :: id in rows ==> id < next
    requires Update(rows, next, p, scan, entries, files).Ok?
    ensures var w := Update(rows, next, p, scan, entries, files).value;
      Left(rows, p, entries, files, w) && IndexHolds(w.rows) && 1 <= Images(entries) <= 5
  {
    var start, existing, w := AllShifted(rows, IdsOf(scan)), IdsOf(scan),
      Update(rows, next, p, scan, entries, files).value;
    ShiftSucceedsIff(rows, p, scan);
    ShiftKeepsIndex(rows, p, scan);
    ScanIsInUse(rows, p, scan);
    var before := PlaceAll(Work(start, next, []), p, existing, entries, files).value;
    AllPlaced(start, next, p, existing, entries, files);
    PlacedIsCounted(start, next, p, existing, entries, files, before);
    EachEntryKeepsIndex(start, next, p, existing, entries, files);
    OrphaningKeepsIndex(before.rows, existing, Used(before.targets));
    forall id | id in w.rows ensures OutcomeOf(rows, p, entries, files, w, id) {
      UpdateOutcomeAt(rows, next, p, scan, entries, files, before, w, id);
    }
    forall id ensures Active(w.rows, p, id) <==> id in Used(w.targets) {
      UsedRowsAreActive(rows, next, p, scan, entries, files, before, w, id);
    }
    forall j | 0 <= j < |entries| ensures WentRight(rows, entries[j], w.targets[j]) {
      assert TargetOk(start, next, before.next, existing, files, entries[j], before.targets[j]);
    }
  }

  ghost predicate ReusedOnce(entries: seq<Entry>) {
    forall i, j :: 0 <= i < j < |entries| && Reuses(entries[i]) && Reuses(entries[j]) ==> entries[i].id != entries[j].id
  }

  ghost predicate ShownAt(rows: Rows, p: Id, position: int) {
    exists id :: Active(rows, p, id) && rows[id].sortOrder == position
  }

  lemma EntryShown(rows: Rows, p: Id, entries: seq<Entry>, files: map<nat, string>, w: Work, k: nat)
    requires Left(rows, p, entries, files, w) && ReusedOnce(entries) && k < |entries|
    requires (Reuses(entries[k]) || Adds(entries[k]))
    ensures ShownAt(w.rows, p, entries[k].sortOrder)
  {
    assert WentRight(rows, entries[k], w.targets[k]);
    var id := w.targets[k].value;
    assert id in Used(w.targets);
    assert Active(w.rows, p, id) && OutcomeOf(rows, p, entries, files, w, id);
    var last := LastUse(w.targets, id);
    assert last == k by {
      assert WentRight(rows, entries[last], w.targets[last]);
    }
  }

  lemma EntryHidden(rows: Rows, p: Id, entries: seq<Entry>, files: map<nat, string>, w: Work, i: nat, j: nat)
    requires Left(rows, p, entries, files, w) && DistinctPositions(entries)
    requires i < j < |entries| && Reuses(entries[i]) && Reuses(entries[j]) && entries[i].id == entries[j].id
    ensures !ShownAt(w.rows, p, entries[i].sortOrder)
  {
    assert WentRight(rows, entries[i], w.targets[i]) && WentRight(rows, entries[j], w.targets[j]);
    forall id | Active(w.rows, p, id) ensures w.rows[id].sortOrder != entries[i].sortOrder {
      LastUseIsUsed(w.targets, id);
      assert OutcomeOf(rows, p, entries, files, w, id);
      assert LastUse(w.targets, id) != i;
    }
  }

  /** Every entry that reuses or adds is afterwards shown at its position exactly when no row is reused
      twice; a row named twice counts twice against the limits but keeps only its last position. */
  lemma EveryEntryShownIff(rows: Rows, next: Id, p: Id, scan: seq<Id>, entries: seq<Entry>, files: map<nat, string>)
    requires IndexHolds(rows) && Scans(scan, rows, p) && DistinctPositions(entries) && forall id :: id in rows ==>
      id < next
    requires Update(rows, next, p, scan, entries, files).Ok?
    ensures ReusedOnce(entries) <==>
      forall k :: 0 <= k < |entries| && (Reuses(entries[k]) || Adds(entries[k])) ==>
        ShownAt(Update(rows, next, p, scan, entries, files).value.rows, p, entries[k].sortOrder)
  {
    var w := Update(rows, next, p, scan, entries, files).value;
    UpdateOutcome(rows, next, p, scan, entries, files);
    if ReusedOnce(entries) {
      forall k | 0 <= k < |entries| && (Reuses(entries[k]) || Adds(entries[k]))
        ensures ShownAt(w.rows, p, entries[k].sortOrder)
      {
        EntryShown(rows, p, entries, files, w, k);
      }
    } else {
      var i, j :| 0 <= i < j < |entries| && Reuses(entries[i]) && Reuses(entries[j]) && entries[i].id == entries[j].id;
      EntryHidden(rows, p, entries, files, w, i, j);
    }
  }

  function TwiceNamed(): seq<Entry> {
    [Entry(Some(1), 0, None), Entry(Some(1), 1, None)]
  }

  function OneImage(): Rows {
    map[1 := Image(7, "a", 0, false)]
  }

  lemma TwiceNamedIsAccepted()
    ensures IndexHolds(OneImage()) && Scans([1], OneImage(), 7) && DistinctPositions(TwiceNamed())
    ensures Update(OneImage(), 2, 7, [1], TwiceNamed(), map[]).Ok? && Images(TwiceNamed()) == 2
  {
    var entries := TwiceNamed();
    assert [1][0] == 1 && IdsOf([1]) == {1};
    assert entries[..1] == [entries[0]] && entries[..1][..0] == [];
    assert Images(entries[..1]) == 1;
    SmallPositionsNeverClash(OneImage(), 2, 7, [1], entries, map[]);
  }

  /** A request that names one row twice is accepted as two images, and afterwards one image is left, at
      the second position. */
  lemma RowNamedTwice()
    ensures var w := Update(OneImage(), 2, 7, [1], TwiceNamed(), map[]);
      w.Ok? && Used(w.value.targets) == {1} && !ShownAt(w.value.rows, 7, 0)
  {
    TwiceNamedIsAccepted();
    UpdateOutcome(OneImage(), 2, 7, [1], TwiceNamed(), map[]);
    TwiceNamedUsesOne(OneImage(), Update(OneImage(), 2, 7, [1], TwiceNamed(), map[]).value);
  }

  lemma TwiceNamedUsesOne(rows: Rows, w: Work)
    requires Left(rows, 7, TwiceNamed(), map[], w)
    ensures Used(w.targets) == {1} && !ShownAt(w.rows, 7, 0)
  {
    var entries := TwiceNamed();
    assert WentRight(rows, entries[0], w.targets[0]) && WentRight(rows, entries[1], w.targets[1]);
    assert w.targets == [Some(1), Some(1)];
    assert w.targets[0].value == 1;
    EntryHidden(rows, 7, entries, map[], w, 0, 1);
  }

  // The statements.

  class Store {
    var rows: Rows
    var next: Id

    constructor (rows: Rows, next: Id)
      ensures this.rows == rows && this.next == next
    {
      this.rows, this.next := rows, next;
    }

    method ShiftAll(scan: seq<Id>) returns (r: Result<(), Error>)
      modifies this`rows
      ensures match Shift(old(rows), scan) case Ok(after) => r == Ok(()) && rows == after case Err(e) => r == Err(e)
    {
      for i := 0 to |scan|
        invariant Shift(old(rows), scan[..i]) == Ok(rows)
      {
        assert scan[..i + 1][..i] == scan[..i];
        if scan[i] in rows {
          r := Write(scan[i], Shifted(rows[scan[i]]));
          if r.Err? {
            ShiftStops(old(rows), scan, i + 1);
            return;
          }
        }
      }
      assert scan[..|scan|] == scan;
      return Ok(());
    }

    /** One row written under the index. */
    method Write(id: Id, image: Image) returns (r: Result<(), Error>)
      modifies this`rows
      ensures match Put(old(rows), id, image)
        case Ok(after) => r == Ok(()) && rows == after
        case Err(e) => r == Err(e) && rows == old(rows)
    {
      if Taken(rows, image.product, image.sortOrder, id) {
        return Err(UniqueViolation);
      }
      rows := rows[id := image];
      return Ok(());
    }

    /** Reuse a row, add a row, or skip. */
    method PlaceEntry(
        p: Id, existing: set<Id>, e: Entry, files: map<nat, string>, used: set<Id>, activeCount: nat,
        ghost targets: seq<Option<Id>>)
      returns (r: Result<(), Error>, used': set<Id>, activeCount': nat, ghost target: Option<Id>)
      modifies this
      ensures match Place(Work(old(rows), old(next), targets), p, existing, e, files)
        case Ok(w) => r == Ok(()) && rows == w.rows && next == w.next && w.targets == targets + [target]
          && used' == used + (if target.Some? then {target.value} else {})
            && activeCount' == activeCount + if target.Some? then 1 else 0
        case Err(error) => r == Err(error)
    {
      r, used', activeCount', target := Ok(()), used, activeCount, None;
      if Reuses(e) {
        var id := e.id.value;
        if id !in existing || id !in rows {
          return Err(BadRequest), used, activeCount, None;
        }
        r := Write(id, rows[id].(sortOrder := e.sortOrder));
        used', activeCount', target := used + {id}, activeCount + 1, Some(id);
      } else if Adds(e) {
        if e.sortOrder !in files {
          return Err(BadRequest), used, activeCount, None;
        }
        r := Write(next, Image(p, files[e.sortOrder], e.sortOrder, false));
        used', activeCount', target := used + {next}, activeCount + 1, Some(next);
        next := next + 1;
      }
    }

    /** One pass over the request. */
    method PlaceEntries(p: Id, existing: set<Id>, entries: seq<Entry>, files: map<nat, string>)
      returns (r: Result<(), Error>, used: set<Id>, activeCount: nat, ghost targets: seq<Option<Id>>)
      modifies this
      ensures match PlaceAll(Work(old(rows), old(next), []), p, existing, entries, files)
        case Ok(w) => r == Ok(()) && rows == w.rows && next == w.next && targets == w.targets && used == Used(targets)
          && activeCount == Counted(targets)
        case Err(e) => r == Err(e)
    {
      used, activeCount, targets := {}, 0, [];
      ghost var begin := Work(rows, next, []);
      for k := 0 to |entries|
        invariant PlaceAll(begin, p, existing, entries[..k], files) == Ok(Work(rows, next, targets))
        invariant used == Used(targets) && activeCount == Counted(targets)
      {
        var e := entries[k];
        assert entries[..k + 1][..k] == entries[..k];
        var one;
        ghost var target;
        one, used, activeCount, target := PlaceEntry(p, existing, e, files, used, activeCount, targets);
        if one.Err? {
          PlacingStops(begin, p, existing, entries, files, k + 1);
          return one, used, activeCount, targets;
        }
        UsedNext(targets, target);
        targets := targets + [target];
      }
      assert entries[..|entries|] == entries;
      return Ok(()), used, activeCount, targets;
    }

    method OrphanOld(scan: seq<Id>, used: set<Id>)
      modifies this`rows
      ensures rows == OrphanUnused(old(rows), IdsOf(scan), used)
    {
      assert rows == OrphanUnused(rows, IdsOf(scan[..0]), used);
      for i := 0 to |scan|
        invariant rows == OrphanUnused(old(rows), IdsOf(scan[..i]), used)
      {
        assert IdsOf(scan[..i + 1]) == IdsOf(scan[..i]) + {scan[i]};
        if scan[i] !in used && scan[i] in rows {
          rows := rows[scan[i] := rows[scan[i]].(orphan := true)];
        }
      }
      assert scan[..|scan|] == scan;
    }

    /** An error rolls the transaction back. */
    method UpdateProductImages(
        p: Id, scan: seq<Id>, entries: seq<Entry>, files: map<nat, string>) returns (r: Result<(), Error>)
      modifies this
      ensures match Update(old(rows), old(next), p, scan, entries, files)
        case Ok(w) => r == Ok(()) && rows == w.rows && next == w.next
        case Err(e) => r == Err(e) && rows == old(rows) && next == old(next)
    {
      var savedRows, savedNext := rows, next;
      r := ShiftAll(scan);
      if r.Ok? {
        var used, activeCount;
        ghost var targets;
        r, used, activeCount, targets := PlaceEntries(p, IdsOf(scan), entries, files);
        if r.Ok? {
          OrphanOld(scan, used);
          if activeCount < 1 {
            r := Err(BadRequest);
          } else if activeCount > IMAGE_LIMIT {
            r := Err(BadRequest);
          }
        }
      }
      if r.Err? {
        rows, next := savedRows, savedNext;
      }
    }
  }

  lemma UsedNext(targets: seq<Option<Id>>, target: Option<Id>)
    ensures Used(targets + [target]) == Used(targets) + if target.Some? then {target.value} else {}
    ensures Counted(targets + [target]) == Counted(targets) + if target.Some? then 1 else 0
  {
    var after := targets + [target];
    assert after[..|targets|] == targets;
    forall id | id in Used(targets) ensures id in Used(after) {
      var i :| 0 <= i < |targets| && targets[i].Some? && targets[i].value == id;
      assert after[i] == targets[i];
    }
    assert after[|targets|] == target;
  }

  lemma {:induction false} ShiftStops(rows: Rows, scan: seq<Id>, k: nat)
    requires k <= |scan| && Shift(rows, scan[..k]).Err?
    ensures Shift(rows, scan) == Shift(rows, scan[..k])
    decreases |scan|
  {
    if k == |scan| {
      assert scan[..k] == scan;
    } else {
      var n := |scan| - 1;
      assert scan[..n][..k] == scan[..k];
      ShiftStops(rows, scan[..n], k);
    }
  }

  lemma {:induction false} PlacingStops(
      w: Work, p: Id, existing: set<Id>, entries: seq<Entry>, files: map<nat, string>, k: nat)
    requires k <= |entries| && PlaceAll(w, p, existing, entries[..k], files).Err?
    ensures PlaceAll(w, p, existing, entries, files) == PlaceAll(w, p, existing, entries[..k], files)
    decreases |entries|
  {
    if k == |entries| {
      assert entries[..k] == entries;
    } else {
      var n := |entries| - 1;
      assert entries[..n][..k] == entries[..k];
      PlacingStops(w, p, existing, entries[..n], files, k);
    }
  }
}
