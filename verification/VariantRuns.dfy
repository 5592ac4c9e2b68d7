/** Sequences of product updates and status changes, and exactly when a product update succeeds. */
module VariantRuns {
  import opened Wrappers
  import opened Paths
  import Sorting
  import opened ProductVariants

  // Exactly when an update succeeds.

  /** A named variant is one of the product's and not archived, and a snapshot refers only to offered options. */
  ghost predicate Writable(variants: Variants, p: Id, e: Entry, offered: Option<set<string>>) {
    && (e.id.Some? ==>
      e.id.value in variants && variants[e.id.value].product == p && variants[e.id.value].status != Archived)
    && SnapshotOk(e, offered)
  }

  lemma {:induction false} WriteAllSucceedsIff(
      start: Variants, next: Id, p: Id, entries: seq<Entry>, offered: Option<set<string>>)
    requires forall id :: id in start ==> id < next
    ensures WriteAll(Written(start, next, map[], []), p, entries, StatusMap(start, p), offered).Ok?
      <==> forall e :: e in entries ==> Writable(start, p, e, offered)
  {
    if entries != [] {
      var n := |entries| - 1;
      WriteAllSucceedsIff(start, next, p, entries[..n], offered);
      assert entries == entries[..n] + [entries[n]];
      if WriteAll(Written(start, next, map[], []), p, entries[..n], StatusMap(start, p), offered).Ok? {
        AllWritten(start, next, p, entries[..n], offered);
        var w := WriteAll(Written(start, next, map[], []), p, entries[..n], StatusMap(start, p), offered).value;
        if Writable(start, p, entries[n], offered) && entries[n].id.Some? {
          assert RowOk(start, p, entries[..n], w, entries[n].id.value);
        }
      }
    }
  }

  ghost predicate Chosen(e: Entry, dimensionIds: map<string, Id>, valueIds: map<string, Id>) {
    forall i :: 0 <= i < |e.options| ==> e.options[i].dimension in dimensionIds && e.options[i].option in valueIds
  }

  lemma {:induction false} PivotsOfSucceedsIff(
      variant: Id, options: seq<Choice>, dimensionIds: map<string, Id>, valueIds: map<string, Id>)
    ensures PivotsOf(variant, options, dimensionIds, valueIds).Ok?
      <==> forall i :: 0 <= i < |options| ==> options[i].dimension in dimensionIds && options[i].option in valueIds
  {
    if options != [] {
      var n := |options| - 1;
      PivotsOfSucceedsIff(variant, options[..n], dimensionIds, valueIds);
      assert forall i :: 0 <= i < n ==> options[..n][i] == options[i];
    }
  }

  lemma {:induction false} PivotRowsSucceedsIff(
      entries: seq<Entry>, ids: map<string, Id>, dimensionIds: map<string, Id>, valueIds: map<string, Id>)
    requires forall i :: 0 <= i < |entries| ==> Key(entries[i]) in ids
    ensures PivotRows(entries, ids, dimensionIds, valueIds).Ok?
      <==> forall i :: 0 <= i < |entries| ==> Chosen(entries[i], dimensionIds, valueIds)
  {
    if entries != [] {
      var n := |entries| - 1;
      PivotRowsSucceedsIff(entries[..n], ids, dimensionIds, valueIds);
      assert forall i :: 0 <= i < n ==> entries[..n][i] == entries[i];
      PivotsOfSucceedsIff(ids[Key(entries[n])], entries[n].options, dimensionIds, valueIds);
    }
  }

  lemma {:induction false} ValueIdsAreOffered(offers: seq<Offer>, next: Id, option: string)
    ensures option in ValueIds(offers, next) <==> exists i :: 0 <= i < |offers| && offers[i].option == option
  {
    if offers != [] {
      var n := |offers| - 1;
      ValueIdsAreOffered(offers[..n], next, option);
      if i :| 0 <= i < n && offers[i].option == option {
        assert offers[..n][i].option == option;
      }
    }
  }

  ghost predicate Offered(e: Entry, valueIds: map<string, Id>) {
    forall i :: 0 <= i < |e.options| ==> e.options[i].option in valueIds
  }

  ghost predicate NamesLive(db: Db, p: Id, e: Entry) {
    e.id.Some? ==> Live(db, p, e.id.value)
  }

  lemma WritableIff(db: Db, p: Id, q: Request, e: Entry)
    requires e in q.variants
    ensures Writable(ArchiveMissing(db.variants, p, PayloadIds(q.variants)), p, e, if q.dimensions != []
      then Some(OptionIds(q.dimensions)) else None)
      <==> (NamesLive(db, p, e) && (q.dimensions != [] ==> Offered(e, ValueIds(Offers(q.dimensions), db.nextValue))))
  {
    forall option
      ensures option in OptionIds(q.dimensions) <==> option in ValueIds(Offers(q.dimensions), db.nextValue)
    {
      ValueIdsAreOffered(Offers(q.dimensions), db.nextValue, option);
    }
    if e.id.Some? {
      var i :| 0 <= i < |q.variants| && q.variants[i] == e;
      assert e.id.value in PayloadIds(q.variants);
    }
  }

  lemma WriteSucceedsIff(db: Db, p: Id, q: Request)
    requires WellFormed(db)
    ensures WriteVariants(db, p, q).Ok? <==> forall e :: e in q.variants ==>
      NamesLive(db, p, e) && (q.dimensions != [] ==> Offered(e, ValueIds(Offers(q.dimensions), db.nextValue)))
  {
    var start := ArchiveMissing(db.variants, p, PayloadIds(q.variants));
    var order := InWriteOrder(q.variants);
    var offered := if q.dimensions != [] then Some(OptionIds(q.dimensions)) else None;
    WriteAllSucceedsIff(start, db.nextVariant, p, order, offered);
    forall e ensures e in order <==> e in q.variants {
      WriteOrderMember(q.variants, e);
    }
    forall e | e in q.variants
      ensures Writable(start, p, e, offered)
        <==> (NamesLive(db, p, e) && (q.dimensions != [] ==> Offered(e, ValueIds(Offers(q.dimensions), db.nextValue))))
    {
      WritableIff(db, p, q, e);
    }
  }

  lemma PivotSucceedsIff(db: Db, p: Id, q: Request)
    requires WellFormed(db) && WriteVariants(db, p, q).Ok?
    ensures PivotRows(q.variants, WriteVariants(db, p, q).value.ids,
                      DimensionIds(q.dimensions, db.nextDimension), ValueIds(Offers(q.dimensions), db.nextValue)).Ok?
      <==> forall e :: e in q.variants ==>
        Chosen(e, DimensionIds(q.dimensions, db.nextDimension), ValueIds(Offers(q.dimensions), db.nextValue))
  {
    var w := WriteVariants(db, p, q).value;
    RequestIsWritten(db, p, q);
    forall i | 0 <= i < |q.variants| ensures Key(q.variants[i]) in w.ids {
      HitIsTarget(ArchiveMissing(db.variants, p, PayloadIds(q.variants)), db.nextVariant, p, q.variants, w,
        q.variants[i]);
    }
    PivotRowsSucceedsIff(q.variants, w.ids, DimensionIds(q.dimensions, db.nextDimension),
      ValueIds(Offers(q.dimensions), db.nextValue));
  }

  /** What a request must satisfy beyond its schema: the rules, every named variant is the product's and
      not archived, and every choice is among the dimensions and options of the request. */
  ghost predicate Acceptable(db: Db, p: Id, q: Request)
    requires q.variants != []
  {
    && ValidateVariantRules(q).Ok?
    && (forall e :: e in q.variants ==> NamesLive(db, p, e))
    && (q.dimensions != [] ==> forall e :: e in q.variants ==>
          Chosen(e, DimensionIds(q.dimensions, db.nextDimension), ValueIds(Offers(q.dimensions), db.nextValue)))
  }

  lemma UpdateOfWritten(db: Db, p: Id, q: Request)
    requires SchemaOk(q) && ValidateVariantRules(q).Ok? && WriteVariants(db, p, q).Ok?
    ensures UpdateVariants(db, p, q).Ok? <==>
      (q.dimensions != [] ==>
         PivotRows(q.variants, WriteVariants(db, p, q).value.ids,
                   DimensionIds(q.dimensions, db.nextDimension), ValueIds(Offers(q.dimensions), db.nextValue)).Ok?)
  {
  }

  lemma UpdateNeedsWritten(db: Db, p: Id, q: Request)
    requires SchemaOk(q) && UpdateVariants(db, p, q).Ok?
    ensures ValidateVariantRules(q).Ok? && WriteVariants(db, p, q).Ok?
  {
  }

  lemma AcceptableIsWritten(db: Db, p: Id, q: Request)
    requires WellFormed(db) && SchemaOk(q) && Acceptable(db, p, q)
    ensures WriteVariants(db, p, q).Ok?
  {
    WriteSucceedsIff(db, p, q);
    forall e | e in q.variants
      ensures NamesLive(db, p, e) && (q.dimensions != [] ==> Offered(e, ValueIds(Offers(q.dimensions), db.nextValue)))
    {
    }
  }

  /** An update succeeds exactly when its request is acceptable. */
  lemma UpdateSucceedsIff(db: Db, p: Id, q: Request)
    requires WellFormed(db) && SchemaOk(q)
    ensures UpdateVariants(db, p, q).Ok? <==> Acceptable(db, p, q)
  {
    if UpdateVariants(db, p, q).Ok? {
      UpdateNeedsWritten(db, p, q);
      WriteSucceedsIff(db, p, q);
      UpdateOfWritten(db, p, q);
      PivotSucceedsIff(db, p, q);
    } else if Acceptable(db, p, q) {
      AcceptableIsWritten(db, p, q);
      UpdateOfWritten(db, p, q);
      PivotSucceedsIff(db, p, q);
    }
  }

  // What an update does not touch.

  lemma {:induction false} PivotRowsJoin(
      entries: seq<Entry>, ids: map<string, Id>, dims: seq<Dimension>, next: Id, valueIds: map<string, Id>, row: Pivot)
    requires PivotRows(entries, ids, DimensionIds(dims, next), valueIds).Ok?
    requires row in PivotRows(entries, ids, DimensionIds(dims, next), valueIds).value
    ensures next <= row.dimension < next + |dims| && exists i :: 0 <= i < |entries| && Hit(entries[i], ids, row.variant)
  {
    var n := |entries| - 1;
    var before := PivotRows(entries[..n], ids, DimensionIds(dims, next), valueIds).value;
    if row in before {
      PivotRowsJoin(entries[..n], ids, dims, next, valueIds, row);
      var i :| 0 <= i < n && Hit(entries[..n][i], ids, row.variant);
      assert Hit(entries[i], ids, row.variant);
    } else {
      var target := ids[Key(entries[n])];
      var rows := PivotsOf(target, entries[n].options, DimensionIds(dims, next), valueIds).value;
      PivotsAreChoices(target, entries[n].options, DimensionIds(dims, next), valueIds);
      var k :| 0 <= k < |rows| && rows[k] == row;
      DimensionIdsAt(dims, next, entries[n].options[k].dimension);
      assert Hit(entries[n], ids, row.variant);
    }
  }

  /** Variants of other products and archived variants stay as they are; no variant changes product. */
  lemma UpdateKeepsOthers(db: Db, p: Id, q: Request, id: Id)
    requires WellFormed(db) && SchemaOk(q) && UpdateVariants(db, p, q).Ok? && id in db.variants
    ensures var after := UpdateVariants(db, p, q).value;
      && id in after.variants && after.variants[id].product == db.variants[id].product
      && (db.variants[id].product != p || db.variants[id].status == Archived ==> after.variants[id] == db.variants[id])
  {
    UpdatedVariants(db, p, q);
    RequestIsWritten(db, p, q);
    OtherVariantsStay(db, p, q, WriteVariants(db, p, q).value, id);
  }

  lemma UpdateKeepsOtherDimensions(db: Db, p: Id, q: Request, d: Id)
    requires WellFormed(db) && SchemaOk(q) && UpdateVariants(db, p, q).Ok?
    ensures var after := UpdateVariants(db, p, q).value;
      && (d in after.dimensions && after.dimensions[d] != p <==> d in db.dimensions && db.dimensions[d] != p)
      && (d in after.dimensions && after.dimensions[d] != p ==> after.dimensions[d] == db.dimensions[d])
      && (d in after.dimensions ==> d < after.nextDimension)
  {
  }

  lemma WrittenIsOfProduct(db: Db, p: Id, q: Request, e: Entry, v: Id)
    requires WellFormed(db) && SchemaOk(q) && UpdateVariants(db, p, q).Ok? && e in q.variants
    requires WriteVariants(db, p, q).Ok? && Hit(e, WriteVariants(db, p, q).value.ids, v)
    ensures OfProduct(UpdateVariants(db, p, q).value, p, v)
  {
    RequestIsWritten(db, p, q);
    UpdatedVariants(db, p, q);
    HitIsTarget(ArchiveMissing(db.variants, p, PayloadIds(q.variants)), db.nextVariant, p, q.variants,
      WriteVariants(db, p, q).value, e);
    LiveIsWritten(db, p, q, WriteVariants(db, p, q).value, v);
  }

  lemma ClearKeepsRow(db: Db, p: Id, row: Pivot)
    ensures row in Clear(db, p).pivots <==> row in db.pivots && !OfProduct(db, p, row.variant)
  {
    Sorting.FilterMember(db.pivots, KeepsPivot(db, p), row);
  }

  lemma PivotsAfterUpdate(db: Db, p: Id, q: Request)
    requires SchemaOk(q) && UpdateVariants(db, p, q).Ok?
    ensures var w := WriteVariants(db, p, q).value;
      var cleared := Clear(db.(variants := w.variants, nextVariant := w.next), p);
      UpdateVariants(db, p, q).value.pivots ==
        if q.dimensions != [] then
          cleared.pivots + PivotRows(q.variants, w.ids, DimensionIds(q.dimensions, db.nextDimension),
            ValueIds(Offers(q.dimensions), db.nextValue)).value
        else if HadDimensions(db, p) then cleared.pivots
        else db.pivots
  {
  }

  lemma NewRowOrigin(db: Db, p: Id, q: Request, row: Pivot)
    requires WellFormed(db) && SchemaOk(q) && UpdateVariants(db, p, q).Ok? && q.dimensions != []
    requires row in PivotRows(q.variants, WriteVariants(db, p, q).value.ids,
      DimensionIds(q.dimensions, db.nextDimension),
                              ValueIds(Offers(q.dimensions), db.nextValue)).value
    ensures OfProduct(UpdateVariants(db, p, q).value, p, row.variant)
  {
    var w := WriteVariants(db, p, q).value;
    PivotRowsJoin(q.variants, w.ids, q.dimensions, db.nextDimension, ValueIds(Offers(q.dimensions), db.nextValue), row);
    var i :| 0 <= i < |q.variants| && Hit(q.variants[i], w.ids, row.variant);
    WrittenIsOfProduct(db, p, q, q.variants[i], row.variant);
  }

  /** A row of the pivot was there before, or belongs to a variant of the product. */
  lemma PivotRowOrigin(db: Db, p: Id, q: Request, row: Pivot)
    requires WellFormed(db) && SchemaOk(q) && UpdateVariants(db, p, q).Ok?
    requires row in UpdateVariants(db, p, q).value.pivots
    ensures row in db.pivots || OfProduct(UpdateVariants(db, p, q).value, p, row.variant)
  {
    var w := WriteVariants(db, p, q).value;
    var written := db.(variants := w.variants, nextVariant := w.next);
    PivotsAfterUpdate(db, p, q);
    ClearKeepsRow(written, p, row);
    if q.dimensions != [] && row !in Clear(written, p).pivots {
      NewRowOrigin(db, p, q, row);
    }
  }

  lemma {:induction false} RowIsCounted(rows: seq<Pivot>, i: nat)
    requires i < |rows|
    ensures Count(rows, rows[i].variant, rows[i].dimension) >= 1
  {
    if i < |rows| - 1 {
      RowIsCounted(rows[..|rows| - 1], i);
    }
  }

  lemma UpdateKeepsJoins(db: Db, p: Id, q: Request, i: nat)
    requires WellFormed(db) && SchemaOk(q) && UpdateVariants(db, p, q).Ok?
    requires i < |UpdateVariants(db, p, q).value.pivots|
    ensures Joins(UpdateVariants(db, p, q).value, UpdateVariants(db, p, q).value.pivots[i])
  {
    var after := UpdateVariants(db, p, q).value;
    var row := after.pivots[i];
    PivotRowOrigin(db, p, q, row);
    if OfProduct(after, p, row.variant) {
      RowIsCounted(after.pivots, i);
      RowsAfterUpdate(db, p, q, row.variant, row.dimension);
    } else {
      var k :| 0 <= k < |db.pivots| && db.pivots[k] == row;
      assert Joins(db, db.pivots[k]);
      UpdateKeepsOthers(db, p, q, row.variant);
      UpdateKeepsOtherDimensions(db, p, q, row.dimension);
    }
  }

  lemma UpdateKeepsWellFormed(db: Db, p: Id, q: Request)
    requires WellFormed(db) && SchemaOk(q) && UpdateVariants(db, p, q).Ok?
    ensures WellFormed(UpdateVariants(db, p, q).value)
  {
    var after := UpdateVariants(db, p, q).value;
    UpdatedVariants(db, p, q);
    RequestIsWritten(db, p, q);
    forall i | 0 <= i < |after.pivots| ensures Joins(after, after.pivots[i]) {
      UpdateKeepsJoins(db, p, q, i);
    }
    forall d | d in after.dimensions ensures d < after.nextDimension {
      UpdateKeepsOtherDimensions(db, p, q, d);
    }
    UpdateRaisesNext(db, p, q);
  }

  lemma UpdateRaisesNext(db: Db, p: Id, q: Request)
    requires SchemaOk(q) && UpdateVariants(db, p, q).Ok?
    ensures UpdateVariants(db, p, q).value.nextVariant == WriteVariants(db, p, q).value.next
  {
  }

  lemma {:induction false} NoRowsOfVariant(
      entries: seq<Entry>, ids: map<string, Id>, dims: seq<Dimension>, next: Id, valueIds: map<string, Id>, v: Id,
      d: Id)
    requires PivotRows(entries, ids, DimensionIds(dims, next), valueIds).Ok? && (d < next || next + |dims| <= d)
    ensures Count(PivotRows(entries, ids, DimensionIds(dims, next), valueIds).value, v, d) == 0
  {
    var rows := PivotRows(entries, ids, DimensionIds(dims, next), valueIds).value;
    forall i | 0 <= i < |rows| ensures rows[i].dimension != d {
      PivotRowsJoin(entries, ids, dims, next, valueIds, rows[i]);
    }
    CountIsZero(rows, v, d);
  }

  /** The pivot of other products keeps its rows. */
  lemma UpdateKeepsOtherRows(db: Db, p: Id, q: Request, v: Id, d: Id)
    requires WellFormed(db) && SchemaOk(q) && UpdateVariants(db, p, q).Ok? && d in db.dimensions
    requires !OfProduct(UpdateVariants(db, p, q).value, p, v)
    ensures Count(UpdateVariants(db, p, q).value.pivots, v, d) == Count(db.pivots, v, d)
  {
    var w := WriteVariants(db, p, q).value;
    var written := db.(variants := w.variants, nextVariant := w.next);
    ClearCount(written, p, v, d);
    if q.dimensions != [] {
      var valueIds := ValueIds(Offers(q.dimensions), db.nextValue);
      NoRowsOfVariant(q.variants, w.ids, q.dimensions, db.nextDimension, valueIds, v, d);
      CountConcat(Clear(written, p).pivots,
        PivotRows(q.variants, w.ids, DimensionIds(q.dimensions, db.nextDimension), valueIds).value, v, d);
    }
  }

  // Runs.

  datatype Op = Update(product: Id, request: Request) | SetStatus(products: set<Id>, active: bool)

  ghost predicate OpOk(op: Op) {
    op.Update? ==> SchemaOk(op.request)
  }

  /** An update that fails leaves everything as it was. */
  function Perform(db: Db, op: Op): Db {
    match op
    case Update(p, q) =>
      if q.variants == [] then db else (match UpdateVariants(db, p, q) case Ok(after) => after case Err(_) => db)
    case SetStatus(products, active) => UpdateStatus(db, products, active)
  }

  function PerformAll(db: Db, ops: seq<Op>): Db
    decreases |ops|
  {
    if ops == [] then db else PerformAll(Perform(db, ops[0]), ops[1..])
  }

  /** A variant has one pivot row for each dimension of its product, or none once it is archived. */
  ghost predicate PivotExact(db: Db) {
    forall v, d :: v in db.variants && d in db.dimensions && db.dimensions[d] == db.variants[v].product ==>
      Count(db.pivots, v, d) == if db.variants[v].status == Archived then 0 else 1
  }

  lemma PerformKeepsWellFormed(db: Db, op: Op)
    requires WellFormed(db) && OpOk(op)
    ensures WellFormed(Perform(db, op))
  {
    if op.Update? && UpdateVariants(db, op.product, op.request).Ok? {
      UpdateKeepsWellFormed(db, op.product, op.request);
    } else if op.SetStatus? {
      var after := UpdateStatus(db, op.products, op.active);
      forall i | 0 <= i < |after.pivots| ensures Joins(after, after.pivots[i]) {
        assert Joins(db, db.pivots[i]);
      }
    }
  }

  lemma UpdateKeepsPivotExact(db: Db, p: Id, q: Request, v: Id, d: Id)
    requires WellFormed(db) && PivotExact(db) && SchemaOk(q) && UpdateVariants(db, p, q).Ok? && KeysOnce(q.variants)
    requires v in UpdateVariants(db, p, q).value.variants && d in UpdateVariants(db, p, q).value.dimensions
    requires UpdateVariants(db, p, q).value.dimensions[d] == UpdateVariants(db, p, q).value.variants[v].product
    ensures var after := UpdateVariants(db, p, q).value;
      Count(after.pivots, v, d) == if after.variants[v].status == Archived then 0 else 1
  {
    var after := UpdateVariants(db, p, q).value;
    if OfProduct(after, p, v) {
      RowsAfterUpdate(db, p, q, v, d);
      UpdateStripsArchived(db, p, q);
      if after.variants[v].status != Archived {
        PivotOnceIff(db, p, q);
        assert Live(after, p, v);
      }
    } else {
      OtherIsOld(db, p, q, v);
      UpdateKeepsOthers(db, p, q, v);
      UpdateKeepsOtherDimensions(db, p, q, d);
      UpdateKeepsOtherRows(db, p, q, v, d);
    }
  }

  lemma OtherIsOld(db: Db, p: Id, q: Request, v: Id)
    requires WellFormed(db) && SchemaOk(q) && UpdateVariants(db, p, q).Ok?
    requires v in UpdateVariants(db, p, q).value.variants && !OfProduct(UpdateVariants(db, p, q).value, p, v)
    ensures v in db.variants
  {
    var w, order := WriteVariants(db, p, q).value, InWriteOrder(q.variants);
    UpdatedVariants(db, p, q);
    RequestIsWritten(db, p, q);
    assert RowOk(ArchiveMissing(db.variants, p, PayloadIds(q.variants)), p, order, w, v);
  }

  lemma PerformKeepsPivotExact(db: Db, op: Op)
    requires WellFormed(db) && PivotExact(db) && OpOk(op) && (op.Update? ==> KeysOnce(op.request.variants))
    ensures PivotExact(Perform(db, op))
  {
    if op.Update? && UpdateVariants(db, op.product, op.request).Ok? {
      var after := UpdateVariants(db, op.product, op.request).value;
      forall v, d | v in after.variants && d in after.dimensions && after.dimensions[d] == after.variants[v].product
        ensures Count(after.pivots, v, d) == if after.variants[v].status == Archived then 0 else 1
      {
        UpdateKeepsPivotExact(db, op.product, op.request, v, d);
      }
    }
  }

  /** Over any run of updates with distinct keys and status changes, every variant in use keeps exactly one
      pivot row per dimension and every archived one has none. */
  lemma {:induction false} PivotStaysExact(db: Db, ops: seq<Op>)
    requires WellFormed(db) && PivotExact(db)
    requires forall i :: 0 <= i < |ops| ==> OpOk(ops[i]) && (ops[i].Update? ==> KeysOnce(ops[i].request.variants))
    ensures WellFormed(PerformAll(db, ops)) && PivotExact(PerformAll(db, ops))
    decreases |ops|
  {
    if ops != [] {
      PerformKeepsWellFormed(db, ops[0]);
      PerformKeepsPivotExact(db, ops[0]);
      PivotStaysExact(Perform(db, ops[0]), ops[1..]);
    }
  }

  lemma PerformKeepsArchived(db: Db, op: Op, id: Id)
    requires WellFormed(db) && OpOk(op) && id in db.variants && db.variants[id].status == Archived
    ensures id in Perform(db, op).variants && Perform(db, op).variants[id] == db.variants[id]
  {
    if op.Update? && UpdateVariants(db, op.product, op.request).Ok? {
      UpdateKeepsOthers(db, op.product, op.request, id);
    }
  }

  /** Archived is for ever: no update and no status change alters the row of an archived variant. */
  lemma {:induction false} ArchivedIsForever(db: Db, ops: seq<Op>, id: Id)
    requires WellFormed(db) && id in db.variants && db.variants[id].status == Archived
    requires forall i :: 0 <= i < |ops| ==> OpOk(ops[i])
    ensures id in PerformAll(db, ops).variants && PerformAll(db, ops).variants[id] == db.variants[id]
    decreases |ops|
  {
    if ops != [] {
      PerformKeepsWellFormed(db, ops[0]);
      PerformKeepsArchived(db, ops[0], id);
      ArchivedIsForever(Perform(db, ops[0]), ops[1..], id);
    }
  }

  const SAMPLE_DATA: Data := Data(1000, 1, 1, None)

  /** Product 1 with variant 5, updated to keep it and to add one whose client id is the text 5. */
  function CollidingRequest(): Request {
    Request(
      [Entry(Some(5), "a", SAMPLE_DATA, true, Active, [Choice("size", "s")]),
       Entry(None, "5", SAMPLE_DATA, false, Active, [Choice("size", "l")])],
      [Dimension("size", ["s", "l"])],
      true)
  }

  function OneVariant(): Db {
    Db(map[5 := Variant(1, SAMPLE_DATA, true, Active)], map[], map[], [], 6, 1, 1)
  }

  lemma CollidingRequestIsChosen()
    ensures forall e :: e in CollidingRequest().variants ==>
      Chosen(e, DimensionIds(CollidingRequest().dimensions, 1), ValueIds(Offers(CollidingRequest().dimensions), 1))
  {
    var dims := CollidingRequest().dimensions;
    assert dims[..0] == [] && OffersOf("size", ["s", "l"]) == [Offer("size", "s"), Offer("size", "l")];
    assert Offers(dims) == [Offer("size", "s"), Offer("size", "l")];
    ValueIdsAreOffered(Offers(dims), 1, "s");
    ValueIdsAreOffered(Offers(dims), 1, "l");
    assert Offers(dims)[0].option == "s" && Offers(dims)[1].option == "l";
  }

  lemma CollidingRequestObeysRules()
    ensures SchemaOk(CollidingRequest()) && ValidateVariantRules(CollidingRequest()).Ok?
  {
    var entries := CollidingRequest().variants;
    assert entries[1..] == [entries[1]] && entries[1..][1..] == [];
    assert Sorting.Filter<Entry>(entries[1..], IsPrimary) == [];
    assert Sorting.Filter<Entry>(entries, IsPrimary) == [entries[0]];
    assert entries[0].status == Active;
  }

  lemma CollidingRequestIsAcceptable()
    ensures WellFormed(OneVariant()) && Acceptable(OneVariant(), 1, CollidingRequest())
  {
    CollidingRequestObeysRules();
    CollidingRequestIsChosen();
    assert Live(OneVariant(), 1, 5);
  }

  lemma KeysCollide()
    ensures !KeysOnce(CollidingRequest().variants)
  {
    assert Key(CollidingRequest().variants[0]) == "5" == Key(CollidingRequest().variants[1]);
  }

  /** The update is accepted, and afterwards one variant has no pivot row and the other has two. */
  lemma ClientIdCollides()
    ensures WellFormed(OneVariant()) && SchemaOk(CollidingRequest())
    ensures UpdateVariants(OneVariant(), 1, CollidingRequest()).Ok?
    ensures !OncePerDimension(UpdateVariants(OneVariant(), 1, CollidingRequest()).value, 1)
  {
    var db, q := OneVariant(), CollidingRequest();
    CollidingRequestObeysRules();
    CollidingRequestIsAcceptable();
    UpdateSucceedsIff(db, 1, q);
    KeysCollide();
    PivotOnceIff(db, 1, q);
  }
}
