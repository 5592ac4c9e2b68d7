/** The variant part of a product update as the repository runs it: loops over the request that write
    rows, build id maps and rebuild dimensions, values and pivot. */
module VariantStore {
  import opened Wrappers
  import opened Paths
  import Sorting
  import opened ProductVariants

  lemma {:induction false} WriteAllStops(
      w: Written, p: Id, entries: seq<Entry>, statuses: map<Id, Status>, offered: Option<set<string>>, k: nat)
    requires k <= |entries| && WriteAll(w, p, entries[..k], statuses, offered).Err?
    ensures WriteAll(w, p, entries, statuses, offered) == WriteAll(w, p, entries[..k], statuses, offered)
    decreases |entries|
  {
    if k == |entries| {
      assert entries[..k] == entries;
    } else {
      var n := |entries| - 1;
      assert entries[..n][..k] == entries[..k];
      WriteAllStops(w, p, entries[..n], statuses, offered, k);
    }
  }

  /** Writing on after some entries: the key maps merge, the newer one first. */
  function Continue(w: Written, r: Result<Written, Error>): Result<Written, Error> {
    match r
    case Err(error) => Err(error)
    case Ok(v) => Ok(Written(v.variants, v.next, w.ids + v.ids, w.targets + v.targets))
  }

  lemma WriteOneContinues(
      w: Written, v: Written, p: Id, e: Entry, statuses: map<Id, Status>, offered: Option<set<string>>)
    ensures WriteOne(Written(v.variants, v.next, w.ids + v.ids, w.targets + v.targets), p, e, statuses, offered)
              == Continue(w, WriteOne(v, p, e, statuses, offered))
  {
    var target := if e.id.Some? then e.id.value else v.next;
    assert w.targets + (v.targets + [target]) == w.targets + v.targets + [target];
    assert w.ids + v.ids[Key(e) := target] == (w.ids + v.ids)[Key(e) := target];
  }

  lemma {:induction false} WriteAllContinues(
      w: Written, p: Id, entries: seq<Entry>, statuses: map<Id, Status>, offered: Option<set<string>>)
    ensures WriteAll(w, p, entries, statuses, offered) ==
      Continue(w, WriteAll(Written(w.variants, w.next, map[], []), p, entries, statuses, offered))
  {
    if entries == [] {
      assert w.ids + map[] == w.ids && w.targets + [] == w.targets;
    } else {
      var n := |entries| - 1;
      var alone := WriteAll(Written(w.variants, w.next, map[], []), p, entries[..n], statuses, offered);
      WriteAllContinues(w, p, entries[..n], statuses, offered);
      if alone.Ok? {
        WriteOneContinues(w, alone.value, p, entries[n], statuses, offered);
      }
    }
  }

  lemma {:induction false} WriteAllConcat(
      w: Written, p: Id, a: seq<Entry>, b: seq<Entry>, statuses: map<Id, Status>, offered: Option<set<string>>)
    ensures WriteAll(w, p, a + b, statuses, offered) ==
      match WriteAll(w, p, a, statuses, offered) case Err(error) => Err(error)
        case Ok(v) => WriteAll(v, p, b, statuses, offered)
  {
    if b == [] {
      assert a + b == a;
    } else {
      var n := |b| - 1;
      assert (a + b)[..|a| + n] == a + b[..n];
      WriteAllConcat(w, p, a, b[..n], statuses, offered);
    }
  }

  lemma {:induction false} PivotRowsStop(
      entries: seq<Entry>, ids: map<string, Id>, dimensionIds: map<string, Id>, valueIds: map<string, Id>, k: nat)
    requires k <= |entries| && PivotRows(entries[..k], ids, dimensionIds, valueIds).Err?
    ensures PivotRows(entries, ids, dimensionIds, valueIds) == PivotRows(entries[..k], ids, dimensionIds, valueIds)
    decreases |entries|
  {
    if k == |entries| {
      assert entries[..k] == entries;
    } else {
      var n := |entries| - 1;
      assert entries[..n][..k] == entries[..k];
      PivotRowsStop(entries[..n], ids, dimensionIds, valueIds, k);
    }
  }

  lemma {:induction false} PivotsOfStop(
      variant: Id, options: seq<Choice>, dimensionIds: map<string, Id>, valueIds: map<string, Id>, k: nat)
    requires k <= |options| && PivotsOf(variant, options[..k], dimensionIds, valueIds).Err?
    ensures PivotsOf(variant, options, dimensionIds, valueIds) ==
      PivotsOf(variant, options[..k], dimensionIds, valueIds)
    decreases |options|
  {
    if k == |options| {
      assert options[..k] == options;
    } else {
      var n := |options| - 1;
      assert options[..n][..k] == options[..k];
      PivotsOfStop(variant, options[..n], dimensionIds, valueIds, k);
    }
  }

  class Store {
    var db: Db

    constructor (db: Db)
      ensures this.db == db
    {
      this.db := db;
    }

    method ArchiveMissingVariants(p: Id, ids: set<Id>)
      modifies this
      ensures db == old(db).(variants := ArchiveMissing(old(db).variants, p, ids))
    {
      var variants := db.variants;
      db := db.(variants := map id | id in variants ::
        if variants[id].product == p && variants[id].status != Archived && (|ids| == 0 || id !in ids)
        then variants[id].(status := Archived) else variants[id]);
    }

    method UpdateExistingVariants(p: Id, existing: seq<Entry>, statuses: map<Id, Status>, offered: Option<set<string>>)
      returns (r: Result<map<string, Id>, Error>, ghost targets: seq<Id>)
      requires forall i :: 0 <= i < |existing| ==> existing[i].id.Some?
      modifies this
      ensures match WriteAll(Written(old(db).variants, old(db).nextVariant, map[], []), p, existing, statuses, offered)
        case Ok(w) => r == Ok(w.ids) && targets == w.targets
          && db == old(db).(variants := w.variants, nextVariant := w.next)
        case Err(error) => r == Err(error)
    {
      var ids: map<string, Id> := map[];
      targets := [];
      ghost var begin := Written(db.variants, db.nextVariant, map[], []);
      for i := 0 to |existing|
        invariant WriteAll(begin, p, existing[..i], statuses, offered) ==
          Ok(Written(db.variants, db.nextVariant, ids, targets))
        invariant db == old(db).(variants := db.variants)
      {
        var e := existing[i];
        var id := e.id.value;
        assert existing[..i + 1][..i] == existing[..i];
        ghost var one := WriteOne(Written(db.variants, db.nextVariant, ids, targets), p, e, statuses, offered);
        if one.Err? {
          WriteAllStops(begin, p, existing, statuses, offered, i + 1);
        }
        if id !in statuses {
          return Err(BadRequest), targets;
        }
        if statuses[id] == Archived {
          return Err(BadRequest), targets;
        }
        if !SnapshotOk(e, offered) {
          return Err(Internal), targets;
        }
        if id !in db.variants || db.variants[id].product != p {
          return Err(Internal), targets;
        }
        db := db.(variants := db.variants[id := RowOf(p, e)]);
        ids := ids[Decimal(id) := id];
        targets := targets + [id];
      }
      assert existing[..|existing|] == existing;
      return Ok(ids), targets;
    }

    method InsertNewVariants(p: Id, added: seq<Entry>, statuses: map<Id, Status>, offered: Option<set<string>>)
      returns (r: Result<map<string, Id>, Error>, ghost targets: seq<Id>)
      requires forall i :: 0 <= i < |added| ==> added[i].id.None?
      modifies this
      ensures match WriteAll(Written(old(db).variants, old(db).nextVariant, map[], []), p, added, statuses, offered)
        case Ok(w) => r == Ok(w.ids) && targets == w.targets
          && db == old(db).(variants := w.variants, nextVariant := w.next)
        case Err(error) => r == Err(error)
    {
      var ids: map<string, Id> := map[];
      targets := [];
      ghost var begin := Written(db.variants, db.nextVariant, map[], []);
      for i := 0 to |added|
        invariant WriteAll(begin, p, added[..i], statuses, offered) ==
          Ok(Written(db.variants, db.nextVariant, ids, targets))
        invariant db == old(db).(variants := db.variants, nextVariant := db.nextVariant)
      {
        var e := added[i];
        assert added[..i + 1][..i] == added[..i];
        if !SnapshotOk(e, offered) {
          WriteAllStops(begin, p, added, statuses, offered, i + 1);
          return Err(Internal), targets;
        }
        var id := db.nextVariant;
        db := db.(variants := db.variants[id := RowOf(p, e)], nextVariant := id + 1);
        ids := ids[e.clientId := id];
        targets := targets + [id];
      }
      assert added[..|added|] == added;
      return Ok(ids), targets;
    }

    method ClearAllDimensionsAndPivot(p: Id)
      modifies this
      ensures db == Clear(old(db), p)
      ensures db == old(db).(pivots := db.pivots, values := db.values, dimensions := db.dimensions)
      ensures forall d :: d in db.dimensions <==> d in old(db).dimensions && old(db).dimensions[d] != p
      ensures forall d :: d in db.dimensions ==> db.dimensions[d] == old(db).dimensions[d]
      ensures forall v :: v in db.values <==>
        v in old(db).values && !(old(db).values[v] in old(db).dimensions && old(db).dimensions[old(db).values[v]] == p)
      ensures forall v :: v in db.values ==> db.values[v] == old(db).values[v]
      ensures forall row :: row in db.pivots <==>
        row in old(db).pivots && !(row.variant in old(db).variants && old(db).variants[row.variant].product == p)
    {
      var now := db;
      db := db.(pivots := Sorting.Filter<Pivot>(now.pivots, KeepsPivot(now, p)));
      forall row ensures row in db.pivots <==> row in now.pivots && KeepsPivot(now, p)(row) {
        Sorting.FilterMember(now.pivots, KeepsPivot(now, p), row);
      }
      db := db.(values := map v | v in now.values
        && !(now.values[v] in now.dimensions && now.dimensions[now.values[v]] == p) :: now.values[v]);
      db := db.(dimensions := map d | d in now.dimensions && now.dimensions[d] != p :: now.dimensions[d]);
    }

    method InsertDimensions(p: Id, dims: seq<Dimension>) returns (ids: map<string, Id>)
      modifies this
      ensures ids == DimensionIds(dims, old(db).nextDimension)
      ensures db == old(db).(dimensions := WithDimensions(old(db).dimensions, p, old(db).nextDimension, |dims|),
                             nextDimension := old(db).nextDimension + |dims|)
    {
      ids := map[];
      ghost var before, next := db.dimensions, db.nextDimension;
      assert WithDimensions(before, p, next, 0) == before;
      for i := 0 to |dims|
        invariant ids == DimensionIds(dims[..i], next)
        invariant db == old(db).(dimensions := WithDimensions(before, p, next, i), nextDimension := next + i)
      {
        DimensionsNext(before, p, next, dims, i);
        var id := db.nextDimension;
        db := db.(dimensions := db.dimensions[id := p], nextDimension := id + 1);
        ids := ids[dims[i].id := id];
      }
      assert dims[..|dims|] == dims;
    }

    /** The values of one dimension. */
    method InsertOptions(
        dimension: string, options: seq<string>, dimensionIds: map<string, Id>, valueIds: map<string, Id>)
      returns (ids: map<string, Id>)
      requires dimension in dimensionIds
      modifies this
      ensures ids == valueIds + ValueIds(OffersOf(dimension, options), old(db).nextValue)
      ensures db == old(db).(
        values := WithValues(old(db).values, OffersOf(dimension, options), dimensionIds, old(db).nextValue),
                             nextValue := old(db).nextValue + |options|)
    {
      ids := valueIds;
      ghost var before, next := db.values, db.nextValue;
      for k := 0 to |options|
        invariant ids == valueIds + ValueIds(OffersOf(dimension, options[..k]), next)
        invariant db == old(db).(values := WithValues(before, OffersOf(dimension, options[..k]), dimensionIds, next),
          nextValue := next + k)
      {
        OptionsNext(before, valueIds, dimension, options, k, dimensionIds, next);
        var id := db.nextValue;
        db := db.(values := db.values[id := dimensionIds[dimension]], nextValue := id + 1);
        ids := ids[options[k] := id];
      }
      assert options[..|options|] == options;
    }

    method InsertValues(dims: seq<Dimension>, dimensionIds: map<string, Id>) returns (ids: map<string, Id>)
      requires forall i :: 0 <= i < |dims| ==> dims[i].id in dimensionIds
      modifies this
      ensures ids == ValueIds(Offers(dims), old(db).nextValue)
      ensures db == old(db).(values := WithValues(old(db).values, Offers(dims), dimensionIds, old(db).nextValue),
                             nextValue := old(db).nextValue + |Offers(dims)|)
    {
      ids := map[];
      ghost var before, next := db.values, db.nextValue;
      for i := 0 to |dims|
        invariant ids == ValueIds(Offers(dims[..i]), next)
        invariant db == old(db).(values := WithValues(before, Offers(dims[..i]), dimensionIds, next),
          nextValue := next + |Offers(dims[..i])|)
      {
        OffersNext(before, dims, i, dimensionIds, next);
        ids := InsertOptions(dims[i].id, dims[i].options, dimensionIds, ids);
      }
      assert dims[..|dims|] == dims;
    }

    /** The pivot rows of one variant. */
    method InsertPivots(
        variant: Id, options: seq<Choice>, dimensionIds: map<string, Id>, valueIds: map<string, Id>)
        returns (r: Result<(), Error>)
      modifies this
      ensures match PivotsOf(variant, options, dimensionIds, valueIds)
        case Ok(rows) => r == Ok(()) && db == old(db).(pivots := old(db).pivots + rows)
        case Err(error) => r == Err(error)
    {
      ghost var rows: seq<Pivot> := [];
      for k := 0 to |options|
        invariant PivotsOf(variant, options[..k], dimensionIds, valueIds) == Ok(rows)
        invariant db == old(db).(pivots := old(db).pivots + rows)
      {
        assert options[..k + 1][..k] == options[..k];
        if options[k].dimension !in dimensionIds || options[k].option !in valueIds {
          PivotsOfStop(variant, options, dimensionIds, valueIds, k + 1);
          return Err(Internal);
        }
        var row := Pivot(variant, dimensionIds[options[k].dimension], valueIds[options[k].option]);
        db := db.(pivots := db.pivots + [row]);
        rows := rows + [row];
      }
      assert options[..|options|] == options;
      return Ok(());
    }

    method InsertAllPivots(
        entries: seq<Entry>, ids: map<string, Id>, dimensionIds: map<string, Id>, valueIds: map<string, Id>)
        returns (r: Result<(), Error>)
      modifies this
      ensures match PivotRows(entries, ids, dimensionIds, valueIds)
        case Ok(rows) => r == Ok(()) && db == old(db).(pivots := old(db).pivots + rows)
        case Err(error) => r == Err(error)
    {
      ghost var rows: seq<Pivot> := [];
      for i := 0 to |entries|
        invariant PivotRows(entries[..i], ids, dimensionIds, valueIds) == Ok(rows)
        invariant db == old(db).(pivots := old(db).pivots + rows)
      {
        assert entries[..i + 1][..i] == entries[..i];
        if Key(entries[i]) in ids {
          var one := InsertPivots(ids[Key(entries[i])], entries[i].options, dimensionIds, valueIds);
          if one.Err? {
            PivotRowsStop(entries, ids, dimensionIds, valueIds, i + 1);
            return one;
          }
          rows := rows + PivotsOf(ids[Key(entries[i])], entries[i].options, dimensionIds, valueIds).value;
        }
      }
      assert entries[..|entries|] == entries;
      return Ok(());
    }

    method RebuildDimensionsAndPivot(
        p: Id, dims: seq<Dimension>, entries: seq<Entry>, variantIds: map<string, Id>) returns (r: Result<(), Error>)
      modifies this
      ensures match Rebuild(old(db), p, dims, entries, variantIds)
        case Ok(after) => r == Ok(()) && db == after
        case Err(error) => r == Err(error)
    {
      ClearAllDimensionsAndPivot(p);
      var dimensionIds := InsertDimensions(p, dims);
      DimensionsHaveIds(dims, old(db).nextDimension);
      var valueIds := InsertValues(dims, dimensionIds);
      r := InsertAllPivots(entries, variantIds, dimensionIds, valueIds);
    }

    /** Every variant of the products that is not archived gets the new status and keeps everything else;
        archived variants, other products' variants, dimensions, values and pivot stay as they are. */
    method UpdateStatuses(products: set<Id>, active: bool)
      modifies this
      ensures db == UpdateStatus(old(db), products, active)
      ensures db.variants.Keys == old(db).variants.Keys
      ensures forall id :: id in db.variants ==>
        && db.variants[id].product == old(db).variants[id].product && db.variants[id].data == old(db).variants[id].data
        && db.variants[id].primary == old(db).variants[id].primary
        && (old(db).variants[id].status == Archived <==> db.variants[id].status == Archived)
      ensures forall id, p :: p in products && Live(db, p, id) ==> (db.variants[id].status == Active <==> active)
      ensures forall id :: id in db.variants && db.variants[id].product !in products ==>
        db.variants[id] == old(db).variants[id]
      ensures db == old(db).(variants := db.variants)
      ensures WellFormed(old(db)) ==> WellFormed(db)
    {
      var variants := db.variants;
      var status := if active then Active else Inactive;
      db := db.(variants := map id | id in variants ::
        if variants[id].product in products && variants[id].status != Archived then variants[id].(status := status)
          else variants[id]);
      if WellFormed(old(db)) {
        forall i | 0 <= i < |db.pivots| ensures Joins(db, db.pivots[i]) {
          assert Joins(old(db), db.pivots[i]);
        }
      }
    }

    /** Archive, update, insert, then bring dimensions and pivot in line; an error rolls back. */
    method UpdateProductVariants(p: Id, q: Request) returns (r: Result<(), Error>)
      requires q.variants != []
      modifies this
      ensures match UpdateVariants(old(db), p, q)
        case Ok(after) => r == Ok(()) && db == after
        case Err(error) => r == Err(error) && db == old(db)
    {
      var rules := ValidateVariantRules(q);
      if rules.Err? {
        return Err(BadRequest);
      }
      var saved := db;
      var variantIds := WriteRequest(p, q);
      if variantIds.Err? {
        db := saved;
        return Err(variantIds.error);
      }
      r := Ok(());
      match ResolveDimensionState(HadDimensions(saved, p), q.dimensions != []) {
        case SingleToSingle =>
        case MultiToSingle => ClearAllDimensionsAndPivot(p);
        case SingleToMulti => r := RebuildDimensionsAndPivot(p, q.dimensions, q.variants, variantIds.value);
        case MultiToMulti => r := RebuildDimensionsAndPivot(p, q.dimensions, q.variants, variantIds.value);
      }
      if r.Err? {
        db := saved;
      }
    }

    method WriteRequest(p: Id, q: Request) returns (r: Result<map<string, Id>, Error>)
      modifies this
      ensures match WriteVariants(old(db), p, q)
        case Ok(w) => r == Ok(w.ids) && db == old(db).(variants := w.variants, nextVariant := w.next)
        case Err(error) => r == Err(error)
    {
      ArchiveMissingVariants(p, PayloadIds(q.variants));
      ghost var begin := Written(db.variants, db.nextVariant, map[], []);
      var statuses := StatusMap(db.variants, p);
      var existing := Sorting.Filter<Entry>(q.variants, HasId);
      var added := Sorting.Filter<Entry>(q.variants, HasNoId);
      KeptHave(q.variants, HasId);
      KeptHave(q.variants, HasNoId);
      var offered := if q.dimensions != [] then Some(OptionIds(q.dimensions)) else None;
      WriteAllConcat(begin, p, existing, added, statuses, offered);
      var existingIds, existingTargets := UpdateExistingVariants(p, existing, statuses, offered);
      if existingIds.Err? {
        return existingIds;
      }
      ghost var middle := Written(db.variants, db.nextVariant, existingIds.value, existingTargets);
      WriteAllContinues(middle, p, added, statuses, offered);
      var addedIds, addedTargets := InsertNewVariants(p, added, statuses, offered);
      if addedIds.Err? {
        return addedIds;
      }
      return Ok(existingIds.value + addedIds.value);
    }
  }

  lemma {:induction false} KeptHave(entries: seq<Entry>, keep: Entry -> bool)
    ensures forall i :: 0 <= i < |Sorting.Filter<Entry>(entries, keep)| ==>
      keep(Sorting.Filter<Entry>(entries, keep)[i])
  {
    var kept := Sorting.Filter<Entry>(entries, keep);
    forall i | 0 <= i < |kept| ensures keep(kept[i]) {
      Sorting.FilterMember(entries, keep, kept[i]);
    }
  }

  lemma {:induction false} DimensionsHaveIds(dims: seq<Dimension>, next: Id)
    ensures forall i :: 0 <= i < |dims| ==> dims[i].id in DimensionIds(dims, next)
  {
    if dims != [] {
      DimensionsHaveIds(dims[..|dims| - 1], next);
      assert forall i :: 0 <= i < |dims| - 1 ==> dims[..|dims| - 1][i] == dims[i];
    }
  }

  lemma DimensionsNext(before: map<Id, Id>, p: Id, next: Id, dims: seq<Dimension>, i: nat)
    requires i < |dims|
    ensures WithDimensions(before, p, next, i + 1) == WithDimensions(before, p, next, i)[next + i := p]
    ensures DimensionIds(dims[..i + 1], next) == DimensionIds(dims[..i], next)[dims[i].id := next + i]
  {
    assert dims[..i + 1][..i] == dims[..i];
  }

  lemma OffersNext(before: map<Id, Id>, dims: seq<Dimension>, i: nat, dimensionIds: map<string, Id>, next: Id)
    requires i < |dims|
    ensures var done, more := Offers(dims[..i]), OffersOf(dims[i].id, dims[i].options);
      && |Offers(dims[..i + 1])| == |done| + |dims[i].options|
      && WithValues(before, Offers(dims[..i + 1]), dimensionIds, next) ==
        WithValues(WithValues(before, done, dimensionIds, next), more, dimensionIds, next + |done|)
      && ValueIds(Offers(dims[..i + 1]), next) == ValueIds(done, next) + ValueIds(more, next + |done|)
  {
    var done, more := Offers(dims[..i]), OffersOf(dims[i].id, dims[i].options);
    assert Offers(dims[..i + 1]) == done + more by {
      assert dims[..i + 1][..i] == dims[..i];
    }
    WithValuesConcat(before, done, more, dimensionIds, next);
    ValueIdsConcat(done, more, next);
  }

  lemma OptionsNext(
      before: map<Id, Id>, ids: map<string, Id>, dimension: string, options: seq<string>, k: nat,
      dimensionIds: map<string, Id>, next: Id)
    requires k < |options| && dimension in dimensionIds
    ensures WithValues(before, OffersOf(dimension, options[..k + 1]), dimensionIds, next)
      == WithValues(before, OffersOf(dimension, options[..k]), dimensionIds, next)[next + k := dimensionIds[dimension]]
    ensures ids + ValueIds(OffersOf(dimension, options[..k + 1]), next) ==
      (ids + ValueIds(OffersOf(dimension, options[..k]), next))[options[k] := next + k]
  {
    var offers := OffersOf(dimension, options[..k]);
    assert OffersOf(dimension, options[..k + 1]) == offers + [Offer(dimension, options[k])];
    ValuesNext(before, offers, Offer(dimension, options[k]), dimensionIds, next);
  }

  lemma ValuesNext(before: map<Id, Id>, offers: seq<Offer>, offer: Offer, dimensionIds: map<string, Id>, next: Id)
    requires offer.dimension in dimensionIds
    ensures WithValues(before, offers + [offer], dimensionIds, next)
              == WithValues(before, offers, dimensionIds, next)[next + |offers| := dimensionIds[offer.dimension]]
    ensures ValueIds(offers + [offer], next) == ValueIds(offers, next)[offer.option := next + |offers|]
  {
    assert (offers + [offer])[..|offers|] == offers;
  }

  lemma {:induction false} ValueIdsConcat(a: seq<Offer>, b: seq<Offer>, next: Id)
    ensures ValueIds(a + b, next) == ValueIds(a, next) + ValueIds(b, next + |a|)
  {
    if b == [] {
      assert a + b == a;
      assert ValueIds(a, next) + map[] == ValueIds(a, next);
    } else {
      var n := |b| - 1;
      ValueIdsConcat(a, b[..n], next);
      assert (a + b)[..|a| + n] == a + b[..n];
      assert ValueIds(a, next) + ValueIds(b[..n], next + |a|)[b[n].option := next + |a| + n]
          == (ValueIds(a, next) + ValueIds(b[..n], next + |a|))[b[n].option := next + |a| + n];
    }
  }

  lemma {:induction false} WithValuesConcat(
      before: map<Id, Id>, a: seq<Offer>, b: seq<Offer>, dimensionIds: map<string, Id>, next: Id)
    ensures WithValues(before, a + b, dimensionIds, next) ==
      WithValues(WithValues(before, a, dimensionIds, next), b, dimensionIds, next + |a|)
  {
    if b == [] {
      assert a + b == a;
    } else {
      var n := |b| - 1;
      WithValuesConcat(before, a, b[..n], dimensionIds, next);
      assert (a + b)[..|a| + n] == a + b[..n];
    }
  }
}
