/** What the rules on variants mean, what an update requires of a request in the request's own terms, and
    what it leaves of dropped variants and of every choice. */
module VariantEffects {
  import opened Wrappers
  import opened Paths
  import Sorting
  import opened ProductVariants
  import opened VariantRuns

  // The rules.

  ghost predicate OnlyPrimary(entries: seq<Entry>, k: nat) {
    && k < |entries| && entries[k].primary
    && forall j :: 0 <= j < |entries| && j != k ==> !entries[j].primary
  }

  lemma {:induction false} OnlyPrimaryIsFiltered(entries: seq<Entry>, k: nat)
    requires OnlyPrimary(entries, k)
    ensures Sorting.Filter<Entry>(entries, IsPrimary) == [entries[k]]
  {
    if k > 0 {
      OnlyPrimaryIsFiltered(entries[1..], k - 1);
    } else {
      NoPrimaryNoneFiltered(entries[1..]);
    }
  }

  lemma {:induction false} NoPrimaryNoneFiltered(entries: seq<Entry>)
    requires forall j :: 0 <= j < |entries| ==> !entries[j].primary
    ensures Sorting.Filter<Entry>(entries, IsPrimary) == []
  {
    if entries != [] {
      NoPrimaryNoneFiltered(entries[1..]);
    }
  }

  lemma OneFilteredIsOnlyPrimary(entries: seq<Entry>) returns (k: nat)
    requires |Sorting.Filter<Entry>(entries, IsPrimary)| == 1
    ensures OnlyPrimary(entries, k)
  {
    var kept := Sorting.Filter<Entry>(entries, IsPrimary);
    assert kept[0] in kept;
    Sorting.FilterMember(entries, IsPrimary, kept[0]);
    k :| k < |entries| && entries[k] == kept[0];
    forall j | 0 <= j < |entries| && j != k ensures !entries[j].primary {
      if entries[j].primary {
        OnlyOneKept(entries, IsPrimary, k, j);
      }
    }
  }

  /** The rules hold exactly when there is one primary variant and no other, it is active if the product is,
      a lone variant has no options and every one of several has some. */
  lemma RulesMeaning(q: Request)
    requires q.variants != []
    ensures ValidateVariantRules(q).Ok? <==>
      && (exists k: nat :: OnlyPrimary(q.variants, k) && (q.productActive ==> q.variants[k].status == Active))
      && (|q.variants| == 1 ==> q.variants[0].options == [])
      && (|q.variants| > 1 ==> forall i :: 0 <= i < |q.variants| ==> q.variants[i].options != [])
    ensures ValidateVariantRules(q).Ok? ==> (ValidateVariantRules(q).value <==> |q.variants| > 1)
    ensures ValidateVariantRules(q).Err? ==> ValidateVariantRules(q).error == BadRequest
  {
    var primaries := Sorting.Filter<Entry>(q.variants, IsPrimary);
    if |primaries| == 1 {
      var k := OneFilteredIsOnlyPrimary(q.variants);
      OnlyPrimaryIsFiltered(q.variants, k);
      forall other: nat | OnlyPrimary(q.variants, other) ensures other == k {
      }
    } else {
      forall k: nat ensures !OnlyPrimary(q.variants, k) {
        if OnlyPrimary(q.variants, k) {
          OnlyPrimaryIsFiltered(q.variants, k);
        }
      }
    }
  }

  // Success and refusal.

  /** The request's dimensions have the chosen one, and some dimension has the chosen option. */
  ghost predicate OnOffer(dims: seq<Dimension>, c: Choice) {
    && (exists k :: 0 <= k < |dims| && dims[k].id == c.dimension)
    && (exists k, m :: 0 <= k < |dims| && 0 <= m < |dims[k].options| && dims[k].options[m] == c.option)
  }

  lemma {:induction false} DimensionIdsKeys(dims: seq<Dimension>, next: Id, key: string)
    ensures key in DimensionIds(dims, next) <==> exists k :: 0 <= k < |dims| && dims[k].id == key
  {
    if dims != [] {
      var n := |dims| - 1;
      DimensionIdsKeys(dims[..n], next, key);
      if k :| 0 <= k < n && dims[k].id == key {
        assert dims[..n][k].id == key;
      }
    }
  }

  lemma {:induction false} OffersHave(dims: seq<Dimension>, option: string)
    ensures (exists i :: 0 <= i < |Offers(dims)| && Offers(dims)[i].option == option)
       <==> (exists k, m :: 0 <= k < |dims| && 0 <= m < |dims[k].options| && dims[k].options[m] == option)
  {
    if dims != [] {
      var n := |dims| - 1;
      var before, last := Offers(dims[..n]), OffersOf(dims[n].id, dims[n].options);
      OffersHave(dims[..n], option);
      if i :| 0 <= i < |Offers(dims)| && Offers(dims)[i].option == option {
        if i < |before| {
          assert before[i].option == option;
          var k, m :| 0 <= k < n && 0 <= m < |dims[..n][k].options| && dims[..n][k].options[m] == option;
          assert dims[k].options[m] == option;
        } else {
          assert last[i - |before|].option == option;
          assert dims[n].options[i - |before|] == option;
        }
      }
      if k, m :| 0 <= k < |dims| && 0 <= m < |dims[k].options| && dims[k].options[m] == option {
        if k < n {
          assert dims[..n][k].options[m] == option;
          var i :| 0 <= i < |before| && before[i].option == option;
          assert Offers(dims)[i].option == option;
        } else {
          assert last[m].option == option;
          assert Offers(dims)[|before| + m].option == option;
        }
      }
    }
  }

  lemma OnOfferIff(dims: seq<Dimension>, nextDimension: Id, nextValue: Id, c: Choice)
    ensures OnOffer(dims, c) <==>
      c.dimension in DimensionIds(dims, nextDimension) && c.option in ValueIds(Offers(dims), nextValue)
  {
    DimensionIdsKeys(dims, nextDimension, c.dimension);
    ValueIdsAreOffered(Offers(dims), nextValue, c.option);
    OffersHave(dims, c.option);
  }

  lemma ChosenIff(dims: seq<Dimension>, nextDimension: Id, nextValue: Id, e: Entry)
    ensures Chosen(e, DimensionIds(dims, nextDimension), ValueIds(Offers(dims), nextValue)) <==>
      forall i :: 0 <= i < |e.options| ==> OnOffer(dims, e.options[i])
  {
    forall i | 0 <= i < |e.options|
      ensures OnOffer(dims, e.options[i]) <==>
        e.options[i].dimension in DimensionIds(dims, nextDimension)
          && e.options[i].option in ValueIds(Offers(dims), nextValue)
    {
      OnOfferIff(dims, nextDimension, nextValue, e.options[i]);
    }
  }

  /** In the request's own terms: an update succeeds exactly when there is one primary variant, active if
      the product is, every variant named is one of the product's that is not archived, and every choice is
      on offer. */
  lemma UpdateSucceedsExactly(db: Db, p: Id, q: Request)
    requires WellFormed(db) && SchemaOk(q)
    ensures UpdateVariants(db, p, q).Ok? <==>
      && (exists k: nat :: OnlyPrimary(q.variants, k) && (q.productActive ==> q.variants[k].status == Active))
      && (forall e :: e in q.variants && e.id.Some? ==>
            && e.id.value in db.variants && db.variants[e.id.value].product == p
            && db.variants[e.id.value].status != Archived)
      && (forall e, i :: e in q.variants && 0 <= i < |e.options| ==> OnOffer(q.dimensions, e.options[i]))
  {
    UpdateSucceedsIff(db, p, q);
    RulesMeaning(q);
    forall e | e in q.variants
      ensures Chosen(e, DimensionIds(q.dimensions, db.nextDimension), ValueIds(Offers(q.dimensions), db.nextValue)) <==>
        forall i :: 0 <= i < |e.options| ==> OnOffer(q.dimensions, e.options[i])
      ensures |e.options| == |q.dimensions|
    {
      ChosenIff(q.dimensions, db.nextDimension, db.nextValue, e);
    }
  }

  lemma {:induction false} WriteAllRefusals(
      w: Written, p: Id, entries: seq<Entry>, statuses: map<Id, Status>, offered: Option<set<string>>)
    requires forall e :: e in entries && e.id.Some? ==> e.id.value in statuses && statuses[e.id.value] != Archived
    ensures WriteAll(w, p, entries, statuses, offered).Err? ==>
      WriteAll(w, p, entries, statuses, offered) == Err(Internal)
  {
    if entries != [] {
      var n := |entries| - 1;
      assert entries == entries[..n] + [entries[n]];
      WriteAllRefusals(w, p, entries[..n], statuses, offered);
    }
  }

  lemma {:induction false} PivotRefusals(
      entries: seq<Entry>, ids: map<string, Id>, dimensionIds: map<string, Id>, valueIds: map<string, Id>)
    ensures PivotRows(entries, ids, dimensionIds, valueIds).Err? ==>
      PivotRows(entries, ids, dimensionIds, valueIds) == Err(Internal)
  {
    if entries != [] {
      var n := |entries| - 1;
      PivotRefusals(entries[..n], ids, dimensionIds, valueIds);
      if Key(entries[n]) in ids {
        PivotsOfRefusals(ids[Key(entries[n])], entries[n].options, dimensionIds, valueIds);
      }
    }
  }

  lemma {:induction false} PivotsOfRefusals(
      variant: Id, options: seq<Choice>, dimensionIds: map<string, Id>, valueIds: map<string, Id>)
    ensures PivotsOf(variant, options, dimensionIds, valueIds).Err? ==>
      PivotsOf(variant, options, dimensionIds, valueIds) == Err(Internal)
  {
    if options != [] {
      PivotsOfRefusals(variant, options[..|options| - 1], dimensionIds, valueIds);
    }
  }

  /** A request against the rules is a bad request; one that only names options not on offer is an internal
      error. */
  lemma UpdateRefusals(db: Db, p: Id, q: Request)
    requires WellFormed(db) && SchemaOk(q) && UpdateVariants(db, p, q).Err?
    ensures ValidateVariantRules(q).Err? ==> UpdateVariants(db, p, q) == Err(BadRequest)
    ensures ValidateVariantRules(q).Ok? && (forall e :: e in q.variants ==> NamesLive(db, p, e)) ==>
      UpdateVariants(db, p, q) == Err(Internal)
  {
    var archived := ArchiveMissing(db.variants, p, PayloadIds(q.variants));
    if ValidateVariantRules(q).Ok? && forall e :: e in q.variants ==> NamesLive(db, p, e) {
      forall e | e in InWriteOrder(q.variants) && e.id.Some?
        ensures e.id.value in StatusMap(archived, p) && StatusMap(archived, p)[e.id.value] != Archived
      {
        WriteOrderMember(q.variants, e);
        assert NamesLive(db, p, e);
        var i :| 0 <= i < |q.variants| && q.variants[i] == e;
        assert e.id.value in PayloadIds(q.variants);
      }
      var offered := if q.dimensions != [] then Some(OptionIds(q.dimensions)) else None;
      WriteAllRefusals(Written(archived, db.nextVariant, map[], []), p, InWriteOrder(q.variants),
        StatusMap(archived, p), offered);
      if WriteVariants(db, p, q).Ok? {
        PivotRefusals(q.variants, WriteVariants(db, p, q).value.ids,
          DimensionIds(q.dimensions, db.nextDimension), ValueIds(Offers(q.dimensions), db.nextValue));
      }
    }
  }

  // Dropped variants.

  /** A variant in use that the request does not name is archived and keeps everything else. */
  lemma DroppedAreArchived(db: Db, p: Id, q: Request, id: Id)
    requires WellFormed(db) && SchemaOk(q) && UpdateVariants(db, p, q).Ok?
    requires Live(db, p, id) && forall e :: e in q.variants ==> e.id != Some(id)
    ensures var after := UpdateVariants(db, p, q).value;
      && id in after.variants && after.variants[id].status == Archived
      && after.variants[id].product == p && after.variants[id].data == db.variants[id].data
      && after.variants[id].primary == db.variants[id].primary
  {
    var w := WriteVariants(db, p, q).value;
    var start, order := ArchiveMissing(db.variants, p, PayloadIds(q.variants)), InWriteOrder(q.variants);
    UpdatedVariants(db, p, q);
    RequestIsWritten(db, p, q);
    assert id !in PayloadIds(q.variants);
    forall k | 0 <= k < |w.targets| ensures w.targets[k] != id {
      WriteOrderMember(q.variants, order[k]);
      assert TargetOk(start, db.nextVariant, p, w.next, order[k], w.targets[k]);
    }
    assert RowOk(start, p, order, w, id);
  }

  // Choices.

  /** The row of an option value: the last one offered under that name. */
  ghost predicate OfferedAs(dims: seq<Dimension>, nextValue: Id, option: string, value: Id) {
    && nextValue <= value < nextValue + |Offers(dims)|
    && Offers(dims)[value - nextValue].option == option
    && forall i :: value - nextValue < i < |Offers(dims)| ==> Offers(dims)[i].option != option
  }

  lemma {:induction false} ValueIdsAt(offers: seq<Offer>, next: Id, option: string)
    requires option in ValueIds(offers, next)
    ensures var v := ValueIds(offers, next)[option];
      && next <= v < next + |offers| && offers[v - next].option == option
      && forall i :: v - next < i < |offers| ==> offers[i].option != option
  {
    var n := |offers| - 1;
    if offers[n].option != option {
      ValueIdsAt(offers[..n], next, option);
    }
  }

  lemma {:induction false} PivotRowsHave(
      entries: seq<Entry>, ids: map<string, Id>, dimensionIds: map<string, Id>, valueIds: map<string, Id>, i: nat,
        c: nat)
    requires PivotRows(entries, ids, dimensionIds, valueIds).Ok? && i < |entries| && c < |entries[i].options|
    requires Key(entries[i]) in ids
    ensures entries[i].options[c].dimension in dimensionIds && entries[i].options[c].option in valueIds
    ensures Pivot(ids[Key(entries[i])], dimensionIds[entries[i].options[c].dimension],
      valueIds[entries[i].options[c].option]) in PivotRows(entries, ids, dimensionIds, valueIds).value
  {
    var n := |entries| - 1;
    if i < n {
      PivotRowsHave(entries[..n], ids, dimensionIds, valueIds, i, c);
    } else {
      PivotsOfShape(ids[Key(entries[n])], entries[n].options, dimensionIds, valueIds, c);
    }
  }

  function AfterWriting(db: Db, p: Id, q: Request): Db
    requires WriteVariants(db, p, q).Ok?
  {
    db.(variants := WriteVariants(db, p, q).value.variants, nextVariant := WriteVariants(db, p, q).value.next)
  }

  lemma UpdateIsRebuild(db: Db, p: Id, q: Request)
    requires SchemaOk(q) && UpdateVariants(db, p, q).Ok? && q.dimensions != []
    ensures WriteVariants(db, p, q).Ok?
    ensures UpdateVariants(db, p, q) ==
      Rebuild(AfterWriting(db, p, q), p, q.dimensions, q.variants, WriteVariants(db, p, q).value.ids)
  {
  }

  lemma RebuiltDimension(db: Db, p: Id, dims: seq<Dimension>, entries: seq<Entry>, ids: map<string, Id>, k: nat)
    requires Rebuild(db, p, dims, entries, ids).Ok? && k < |dims|
    ensures var after := Rebuild(db, p, dims, entries, ids).value;
      db.nextDimension + k in after.dimensions && after.dimensions[db.nextDimension + k] == p
  {
  }

  lemma NewDimensionsAreThere(db: Db, p: Id, q: Request, k: nat)
    requires SchemaOk(q) && UpdateVariants(db, p, q).Ok? && k < |q.dimensions|
    ensures var after := UpdateVariants(db, p, q).value;
      db.nextDimension + k in after.dimensions && after.dimensions[db.nextDimension + k] == p
  {
    UpdateIsRebuild(db, p, q);
    RebuiltDimension(AfterWriting(db, p, q), p, q.dimensions, q.variants, WriteVariants(db, p, q).value.ids, k);
  }

  lemma NewPivotRowsStay(db: Db, p: Id, q: Request, row: Pivot)
    requires SchemaOk(q) && UpdateVariants(db, p, q).Ok? && q.dimensions != []
    requires PivotRows(q.variants, WriteVariants(db, p, q).value.ids, DimensionIds(q.dimensions, db.nextDimension),
      ValueIds(Offers(q.dimensions), db.nextValue)).Ok?
    requires row in PivotRows(q.variants, WriteVariants(db, p, q).value.ids,
      DimensionIds(q.dimensions, db.nextDimension), ValueIds(Offers(q.dimensions), db.nextValue)).value
    ensures row in UpdateVariants(db, p, q).value.pivots
  {
    PivotsAfterUpdate(db, p, q);
  }

  /** The pivot row a choice asks for: under the given variant, the new row of the dimension with the
      chosen id, and the new row of the option last offered under the chosen name. */
  ghost predicate PivotOfChoice(db: Db, q: Request, variant: Id, choice: Choice, row: Pivot) {
    && row.variant == variant
    && (exists k: nat ::
          k < |q.dimensions| && q.dimensions[k].id == choice.dimension && row.dimension == db.nextDimension + k)
    && OfferedAs(q.dimensions, db.nextValue, choice.option, row.value)
  }

  /** Every choice of every request variant is such a row of the pivot, under the row the variant's key
      leads to, and the dimension is one of the product's. */
  lemma ChoicesArePivotRows(db: Db, p: Id, q: Request, i: nat, c: nat) returns (row: Pivot)
    requires WellFormed(db) && SchemaOk(q) && UpdateVariants(db, p, q).Ok?
    requires i < |q.variants| && c < |q.variants[i].options|
    ensures Key(q.variants[i]) in WriteVariants(db, p, q).value.ids
    ensures PivotOfChoice(db, q, WriteVariants(db, p, q).value.ids[Key(q.variants[i])], q.variants[i].options[c], row)
    ensures var after := UpdateVariants(db, p, q).value;
      row in after.pivots && row.dimension in after.dimensions && after.dimensions[row.dimension] == p
  {
    var w, choice := WriteVariants(db, p, q).value, q.variants[i].options[c];
    var ids, valueIds := DimensionIds(q.dimensions, db.nextDimension), ValueIds(Offers(q.dimensions), db.nextValue);
    UpdateHasPivotRows(db, p, q, i);
    PivotRowsHave(q.variants, w.ids, ids, valueIds, i, c);
    row := Pivot(w.ids[Key(q.variants[i])], ids[choice.dimension], valueIds[choice.option]);
    var k := RowOfChoice(db, q, w.ids[Key(q.variants[i])], choice);
    NewDimensionsAreThere(db, p, q, k);
    NewPivotRowsStay(db, p, q, row);
  }

  lemma RowOfChoice(db: Db, q: Request, variant: Id, choice: Choice) returns (k: nat)
    requires choice.dimension in DimensionIds(q.dimensions, db.nextDimension)
    requires choice.option in ValueIds(Offers(q.dimensions), db.nextValue)
    ensures k < |q.dimensions| && DimensionIds(q.dimensions, db.nextDimension)[choice.dimension] == db.nextDimension + k
    ensures PivotOfChoice(db, q, variant, choice,
      Pivot(variant, DimensionIds(q.dimensions, db.nextDimension)[choice.dimension],
        ValueIds(Offers(q.dimensions), db.nextValue)[choice.option]))
  {
    DimensionIdsAt(q.dimensions, db.nextDimension, choice.dimension);
    ValueIdsAt(Offers(q.dimensions), db.nextValue, choice.option);
    k := DimensionIds(q.dimensions, db.nextDimension)[choice.dimension] - db.nextDimension;
  }

  lemma UpdateHasPivotRows(db: Db, p: Id, q: Request, i: nat)
    requires WellFormed(db) && SchemaOk(q) && UpdateVariants(db, p, q).Ok?
    requires i < |q.variants| && q.variants[i].options != []
    ensures WriteVariants(db, p, q).Ok? && Key(q.variants[i]) in WriteVariants(db, p, q).value.ids
    ensures q.dimensions != [] && PivotRows(q.variants, WriteVariants(db, p, q).value.ids,
      DimensionIds(q.dimensions, db.nextDimension), ValueIds(Offers(q.dimensions), db.nextValue)).Ok?
  {
    UpdateNeedsWritten(db, p, q);
    UpdateOfWritten(db, p, q);
    RequestIsWritten(db, p, q);
    HitIsTarget(ArchiveMissing(db.variants, p, PayloadIds(q.variants)), db.nextVariant, p, q.variants,
      WriteVariants(db, p, q).value, q.variants[i]);
  }

  /** Each offer is an option of the dimension it names. */
  lemma {:induction false} OffersAreOptions(dims: seq<Dimension>, i: nat)
    requires i < |Offers(dims)|
    ensures exists k, m ::
      0 <= k < |dims| && 0 <= m < |dims[k].options| && Offers(dims)[i] == Offer(dims[k].id, dims[k].options[m])
  {
    var n := |dims| - 1;
    var before := Offers(dims[..n]);
    if i < |before| {
      OffersAreOptions(dims[..n], i);
      var k, m :| 0 <= k < n && 0 <= m < |dims[..n][k].options|
        && before[i] == Offer(dims[..n][k].id, dims[..n][k].options[m]);
      assert Offers(dims)[i] == Offer(dims[k].id, dims[k].options[m]);
    } else {
      assert Offers(dims)[i] == Offer(dims[n].id, dims[n].options[i - |before|]);
    }
  }

  lemma {:induction false} WithValuesAt(
      values: map<Id, Id>, offers: seq<Offer>, dimensionIds: map<string, Id>, next: Id, i: nat)
    requires i < |offers| && offers[i].dimension in dimensionIds
    ensures next + i in WithValues(values, offers, dimensionIds, next)
    ensures WithValues(values, offers, dimensionIds, next)[next + i] == dimensionIds[offers[i].dimension]
  {
    var n := |offers| - 1;
    if i < n {
      WithValuesAt(values, offers[..n], dimensionIds, next, i);
    }
  }

  lemma RebuiltValue(db: Db, p: Id, dims: seq<Dimension>, entries: seq<Entry>, ids: map<string, Id>, i: nat)
      returns (k: nat)
    requires Rebuild(db, p, dims, entries, ids).Ok? && i < |Offers(dims)|
    ensures var after := Rebuild(db, p, dims, entries, ids).value;
      && db.nextValue + i in after.values && k < |dims| && dims[k].id == Offers(dims)[i].dimension
      && after.values[db.nextValue + i] == db.nextDimension + k
  {
    var offers, dimensionIds := Offers(dims), DimensionIds(dims, db.nextDimension);
    OffersAreOptions(dims, i);
    DimensionIdsKeys(dims, db.nextDimension, offers[i].dimension);
    WithValuesAt(Clear(db, p).values, offers, dimensionIds, db.nextValue, i);
    DimensionIdsAt(dims, db.nextDimension, offers[i].dimension);
    k := dimensionIds[offers[i].dimension] - db.nextDimension;
  }

  /** Every option offered has a new row, under the new row of a dimension with the id of the one it is an
      option of. */
  lemma OptionsAreValueRows(db: Db, p: Id, q: Request, i: nat) returns (k: nat)
    requires SchemaOk(q) && UpdateVariants(db, p, q).Ok? && i < |Offers(q.dimensions)|
    ensures var after := UpdateVariants(db, p, q).value;
      && db.nextValue + i in after.values && k < |q.dimensions|
      && after.values[db.nextValue + i] == db.nextDimension + k
      && q.dimensions[k].id == Offers(q.dimensions)[i].dimension
  {
    UpdateIsRebuild(db, p, q);
    k := RebuiltValue(AfterWriting(db, p, q), p, q.dimensions, q.variants, WriteVariants(db, p, q).value.ids, i);
  }
}
