/** The variant part of a product update: archive what the request leaves out, write what it names, and
    rebuild dimensions, values and the pivot of option values. */
module ProductVariants {
  import opened Wrappers
  import opened Paths
  import Sorting
  import FiniteSets

  /** Serial keys start at one. */
  type Id = i: int | 0 < i witness 1

  datatype Error = BadRequest | Internal

  datatype Status = Active | Inactive | Archived

  datatype Data = Data(price: nat, stock: nat, weight: nat, sku: Option<string>)

  datatype Variant = Variant(product: Id, data: Data, primary: bool, status: Status)

  type Variants = map<Id, Variant>

  datatype Pivot = Pivot(variant: Id, dimension: Id, value: Id)

  /** dimensions gives each dimension its product, values gives each value its dimension. */
  datatype Db = Db(
    variants: Variants, dimensions: map<Id, Id>, values: map<Id, Id>, pivots: seq<Pivot>,
    nextVariant: Id, nextDimension: Id, nextValue: Id)

  // The request.

  datatype Choice = Choice(dimension: string, option: string)

  datatype Entry = Entry(id: Option<Id>, clientId: string, data: Data, primary: bool, status: Status,
      options: seq<Choice>)

  datatype Dimension = Dimension(id: string, options: seq<string>)

  datatype Request = Request(variants: seq<Entry>, dimensions: seq<Dimension>, productActive: bool)

  ghost predicate ChoicesOnce(options: seq<Choice>) {
    forall i, j :: 0 <= i < j < |options| ==> options[i].dimension != options[j].dimension
  }

  /** What the request schema promises. */
  ghost predicate SchemaOk(q: Request) {
    && q.variants != []
    && (|q.variants| == 1 <==> q.dimensions == [])
    && forall i :: 0 <= i < |q.variants| ==>
         q.variants[i].status != Archived && |q.variants[i].options| == |q.dimensions|
           && ChoicesOnce(q.variants[i].options)
  }

  predicate IsPrimary(e: Entry) {
    e.primary
  }

  /** The rules over the whole list of variants; the value says whether the product has several. */
  function ValidateVariantRules(q: Request): Result<bool, Error>
    requires q.variants != []
  {
    var primaries := Sorting.Filter<Entry>(q.variants, IsPrimary);
    if |primaries| != 1 then Err(BadRequest)
    else if q.productActive && primaries[0].status != Active then Err(BadRequest)
    else if q.productActive && !(exists i :: 0 <= i < |q.variants| && q.variants[i].status == Active)
      then Err(BadRequest)
    else if |q.variants| == 1 && q.variants[0].options != [] then Err(BadRequest)
    else if |q.variants| > 1 && exists i :: 0 <= i < |q.variants| && q.variants[i].options == [] then Err(BadRequest)
    else Ok(|q.variants| > 1)
  }

  /** The key under which a request variant is looked up when the pivot is written. */
  function Key(e: Entry): string {
    match e.id case Some(id) => Decimal(id) case None => e.clientId
  }

  ghost predicate KeysOnce(entries: seq<Entry>) {
    forall i, j :: 0 <= i < j < |entries| ==> Key(entries[i]) != Key(entries[j])
  }

  // Archiving.

  function PayloadIds(entries: seq<Entry>): set<Id> {
    set i | 0 <= i < |entries| && entries[i].id.Some? :: entries[i].id.value
  }

  function ArchiveMissing(variants: Variants, p: Id, ids: set<Id>): Variants {
    map id | id in variants ::
      if variants[id].product == p && variants[id].status != Archived && (ids == {} || id !in ids)
      then variants[id].(status := Archived) else variants[id]
  }

  function StatusMap(variants: Variants, p: Id): map<Id, Status> {
    map id | id in variants && variants[id].product == p :: variants[id].status
  }

  // Writing.

  /** ids maps request keys to rows; targets records the row of each entry so far. */
  datatype Written = Written(variants: Variants, next: Id, ids: map<string, Id>, targets: seq<Id>)

  function RowOf(p: Id, e: Entry): Variant {
    Variant(p, e.data, e.primary, e.status)
  }

  /** The row has the product and, field by field, what the entry asks for. */
  predicate Holds(row: Variant, p: Id, e: Entry) {
    && row.product == p && row.primary == e.primary && row.status == e.status
    && row.data.price == e.data.price && row.data.stock == e.data.stock
    && row.data.weight == e.data.weight && row.data.sku == e.data.sku
  }

  /** The option values a snapshot can refer to; none for a product without dimensions. */
  predicate SnapshotOk(e: Entry, offered: Option<set<string>>) {
    offered.Some? ==> forall i :: 0 <= i < |e.options| ==> e.options[i].option in offered.value
  }

  function WriteOne(
      w: Written, p: Id, e: Entry, statuses: map<Id, Status>, offered: Option<set<string>>): Result<Written, Error> {
    match e.id
    case Some(id) =>
      if id !in statuses then Err(BadRequest)
      else if statuses[id] == Archived then Err(BadRequest)
      else if !SnapshotOk(e, offered) then Err(Internal)
      else if id !in w.variants || w.variants[id].product != p then Err(Internal)
      else Ok(Written(w.variants[id := RowOf(p, e)], w.next, w.ids[Key(e) := id], w.targets + [id]))
    case None =>
      if !SnapshotOk(e, offered) then Err(Internal)
      else Ok(Written(w.variants[w.next := RowOf(p, e)], w.next + 1, w.ids[Key(e) := w.next], w.targets + [w.next]))
  }

  function WriteAll(
      w: Written, p: Id, entries: seq<Entry>, statuses: map<Id, Status>, offered: Option<set<string>>):
        Result<Written, Error> {
    if entries == [] then Ok(w)
    else
      var n := |entries| - 1;
      match WriteAll(w, p, entries[..n], statuses, offered)
      case Err(error) => Err(error)
      case Ok(before) => WriteOne(before, p, entries[n], statuses, offered)
  }

  function HasId(e: Entry): bool {
    e.id.Some?
  }

  function HasNoId(e: Entry): bool {
    e.id.None?
  }

  /** Existing variants are written before new ones. */
  function InWriteOrder(entries: seq<Entry>): seq<Entry> {
    Sorting.Filter<Entry>(entries, HasId) + Sorting.Filter<Entry>(entries, HasNoId)
  }

  /** The last entry written to the row, or -1. */
  function LastWrite(targets: seq<Id>, id: Id): (k: int)
    ensures -1 <= k < |targets|
    ensures k >= 0 ==> targets[k] == id
    ensures forall j :: k < j < |targets| ==> targets[j] != id
  {
    if targets == [] then -1
    else if targets[|targets| - 1] == id then |targets| - 1
    else LastWrite(targets[..|targets| - 1], id)
  }

  /** The last entry with the key, or -1. */
  function LastKey(entries: seq<Entry>, key: string): (k: int)
    ensures -1 <= k < |entries|
    ensures k >= 0 ==> Key(entries[k]) == key
    ensures forall j :: k < j < |entries| ==> Key(entries[j]) != key
  {
    if entries == [] then -1
    else if Key(entries[|entries| - 1]) == key then |entries| - 1
    else LastKey(entries[..|entries| - 1], key)
  }

  ghost predicate TargetOk(start: Variants, next: Id, p: Id, end: Id, e: Entry, target: Id) {
    match e.id
    case Some(id) => target == id && id in start && start[id].product == p && start[id].status != Archived
    case None => next <= target < end
  }

  ghost predicate TargetsOk(start: Variants, next: Id, p: Id, entries: seq<Entry>, w: Written) {
    && |w.targets| == |entries| && next <= w.next
    && (forall i :: 0 <= i < |entries| ==> TargetOk(start, next, p, w.next, entries[i], w.targets[i]))
    && (forall i, j :: 0 <= i < j < |entries| && entries[j].id.None? ==> w.targets[i] != w.targets[j])
  }

  ghost predicate RowsOk(start: Variants, next: Id, p: Id, entries: seq<Entry>, w: Written) {
    && |w.targets| == |entries|
    && (forall id :: id in w.variants <==> id in start || next <= id < w.next)
    && (forall id :: id in w.variants ==> RowOk(start, p, entries, w, id))
  }

  ghost predicate RowOk(start: Variants, p: Id, entries: seq<Entry>, w: Written, id: Id)
    requires id in w.variants && |w.targets| == |entries|
  {
    var k := LastWrite(w.targets, id);
    if k >= 0 then Holds(w.variants[id], p, entries[k]) else id in start && w.variants[id] == start[id]
  }

  ghost predicate KeysOk(entries: seq<Entry>, w: Written) {
    && |w.targets| == |entries|
    && (forall key :: key in w.ids <==> LastKey(entries, key) >= 0)
    && (forall key :: key in w.ids ==> w.ids[key] == w.targets[LastKey(entries, key)])
  }

  lemma LastWriteNext(targets: seq<Id>, target: Id, id: Id)
    ensures LastWrite(targets + [target], id) == if target == id then |targets| else LastWrite(targets, id)
  {
    assert (targets + [target])[..|targets|] == targets;
  }

  lemma LastKeyNext(entries: seq<Entry>, e: Entry, key: string)
    ensures LastKey(entries + [e], key) == if Key(e) == key then |entries| else LastKey(entries, key)
  {
    assert (entries + [e])[..|entries|] == entries;
  }

  lemma WriteKeepsTargets(
      start: Variants, next: Id, p: Id, entries: seq<Entry>, w: Written, e: Entry, offered: Option<set<string>>)
    requires TargetsOk(start, next, p, entries, w) && WriteOne(w, p, e, StatusMap(start, p), offered).Ok?
    requires forall id :: id in start ==> id < next
    ensures TargetsOk(start, next, p, entries + [e], WriteOne(w, p, e, StatusMap(start, p), offered).value)
  {
    var after, all := WriteOne(w, p, e, StatusMap(start, p), offered).value, entries + [e];
    forall i | 0 <= i < |all| ensures TargetOk(start, next, p, after.next, all[i], after.targets[i]) {
      if i < |entries| {
        assert TargetOk(start, next, p, w.next, entries[i], w.targets[i]);
      }
    }
    forall i, j | 0 <= i < j < |all| && all[j].id.None? ensures after.targets[i] != after.targets[j] {
      assert TargetOk(start, next, p, w.next, entries[i], w.targets[i]);
    }
  }

  lemma WriteKeepsRows(
      start: Variants, next: Id, p: Id, entries: seq<Entry>, w: Written, e: Entry, statuses: map<Id, Status>,
      offered: Option<set<string>>)
    requires RowsOk(start, next, p, entries, w) && next <= w.next && WriteOne(w, p, e, statuses, offered).Ok?
    ensures RowsOk(start, next, p, entries + [e], WriteOne(w, p, e, statuses, offered).value)
  {
    var after := WriteOne(w, p, e, statuses, offered).value;
    var target := after.targets[|entries|];
    forall id | id in after.variants ensures RowOk(start, p, entries + [e], after, id) {
      RowAfterWrite(start, p, entries, w, after, e, target, id);
    }
  }

  lemma RowAfterWrite(
      start: Variants, p: Id, entries: seq<Entry>, w: Written, after: Written, e: Entry, target: Id, id: Id)
    requires |w.targets| == |entries| && after.targets == w.targets + [target] && id in after.variants
    requires if id == target then Holds(after.variants[id], p, e)
      else id in w.variants && after.variants[id] == w.variants[id] && RowOk(start, p, entries, w, id)
    ensures RowOk(start, p, entries + [e], after, id)
  {
    LastWriteNext(w.targets, target, id);
  }

  lemma WriteKeepsKeys(
      p: Id, entries: seq<Entry>, w: Written, e: Entry, statuses: map<Id, Status>, offered: Option<set<string>>)
    requires KeysOk(entries, w) && WriteOne(w, p, e, statuses, offered).Ok?
    ensures KeysOk(entries + [e], WriteOne(w, p, e, statuses, offered).value)
  {
    var after := WriteOne(w, p, e, statuses, offered).value;
    forall key ensures key in after.ids <==> LastKey(entries + [e], key) >= 0 {
      LastKeyNext(entries, e, key);
    }
    forall key | key in after.ids ensures after.ids[key] == after.targets[LastKey(entries + [e], key)] {
      LastKeyNext(entries, e, key);
    }
  }

  lemma {:induction false} AllWritten(
      start: Variants, next: Id, p: Id, entries: seq<Entry>, offered: Option<set<string>>)
    requires forall id :: id in start ==> id < next
    requires WriteAll(Written(start, next, map[], []), p, entries, StatusMap(start, p), offered).Ok?
    ensures var w := WriteAll(Written(start, next, map[], []), p, entries, StatusMap(start, p), offered).value;
      TargetsOk(start, next, p, entries, w) && RowsOk(start, next, p, entries, w) && KeysOk(entries, w)
  {
    if entries != [] {
      var n := |entries| - 1;
      AllWritten(start, next, p, entries[..n], offered);
      assert entries == entries[..n] + [entries[n]];
      var before := WriteAll(Written(start, next, map[], []), p, entries[..n], StatusMap(start, p), offered).value;
      WriteKeepsTargets(start, next, p, entries[..n], before, entries[n], offered);
      WriteKeepsRows(start, next, p, entries[..n], before, entries[n], StatusMap(start, p), offered);
      WriteKeepsKeys(p, entries[..n], before, entries[n], StatusMap(start, p), offered);
    }
  }

  // Dimensions, values and the pivot.

  /** The row of each dimension of the request; a later one with the same id wins. */
  function DimensionIds(dims: seq<Dimension>, next: Id): map<string, Id> {
    if dims == [] then map[]
    else
      var n := |dims| - 1;
      DimensionIds(dims[..n], next)[dims[n].id := next + n]
  }

  datatype Offer = Offer(dimension: string, option: string)

  /** The options of all dimensions, in order. */
  function Offers(dims: seq<Dimension>): seq<Offer> {
    if dims == [] then []
    else
      var n := |dims| - 1;
      Offers(dims[..n]) + OffersOf(dims[n].id, dims[n].options)
  }

  function OffersOf(dimension: string, options: seq<string>): (offers: seq<Offer>)
    ensures |offers| == |options|
  {
    seq(|options|, i requires 0 <= i < |options| => Offer(dimension, options[i]))
  }

  function ValueIds(offers: seq<Offer>, next: Id): map<string, Id> {
    if offers == [] then map[]
    else
      var n := |offers| - 1;
      ValueIds(offers[..n], next)[offers[n].option := next + n]
  }

  function PivotsOf(
      variant: Id, options: seq<Choice>, dimensionIds: map<string, Id>, valueIds: map<string, Id>):
        Result<seq<Pivot>, Error> {
    if options == [] then Ok([])
    else
      var n := |options| - 1;
      match PivotsOf(variant, options[..n], dimensionIds, valueIds)
      case Err(error) => Err(error)
      case Ok(before) =>
        if options[n].dimension in dimensionIds && options[n].option in valueIds
        then Ok(before + [Pivot(variant, dimensionIds[options[n].dimension], valueIds[options[n].option])])
          else Err(Internal)
  }

  /** The rows of the pivot, one request variant after the other; a variant without a row is skipped. */
  function PivotRows(
      entries: seq<Entry>, ids: map<string, Id>, dimensionIds: map<string, Id>, valueIds: map<string, Id>):
        Result<seq<Pivot>, Error> {
    if entries == [] then Ok([])
    else
      var n := |entries| - 1;
      match PivotRows(entries[..n], ids, dimensionIds, valueIds)
      case Err(error) => Err(error)
      case Ok(before) =>
        if Key(entries[n]) !in ids then Ok(before)
        else
          match PivotsOf(ids[Key(entries[n])], entries[n].options, dimensionIds, valueIds)
          case Err(error) => Err(error)
          case Ok(rows) => Ok(before + rows)
  }

  predicate OfProduct(db: Db, p: Id, variant: Id) {
    variant in db.variants && db.variants[variant].product == p
  }

  function KeepsPivot(db: Db, p: Id): Pivot -> bool {
    (row: Pivot) => !OfProduct(db, p, row.variant)
  }

  function Clear(db: Db, p: Id): Db {
    db.(pivots := Sorting.Filter<Pivot>(db.pivots, KeepsPivot(db, p)),
        values := map v | v in db.values
          && !(db.values[v] in db.dimensions && db.dimensions[db.values[v]] == p) :: db.values[v],
        dimensions := map d | d in db.dimensions && db.dimensions[d] != p :: db.dimensions[d])
  }

  /** The n ids from next on. */
  function Span(next: Id, n: nat): (ids: set<Id>)
    ensures forall i :: i in ids <==> next <= i < next + n
  {
    if n == 0 then {} else Span(next, n - 1) + {next + n - 1}
  }

  function WithDimensions(dimensions: map<Id, Id>, p: Id, next: Id, n: nat): map<Id, Id> {
    map d | d in dimensions.Keys + Span(next, n) :: if next <= d < next + n then p else dimensions[d]
  }

  function WithValues(values: map<Id, Id>, offers: seq<Offer>, dimensionIds: map<string, Id>, next: Id): map<Id, Id> {
    if offers == [] then values
    else
      var n := |offers| - 1;
      var before := WithValues(values, offers[..n], dimensionIds, next);
      if offers[n].dimension in dimensionIds then before[next + n := dimensionIds[offers[n].dimension]] else before
  }

  function Rebuild(db: Db, p: Id, dims: seq<Dimension>, entries: seq<Entry>, ids: map<string, Id>): Result<Db, Error> {
    var cleared := Clear(db, p);
    var dimensionIds := DimensionIds(dims, db.nextDimension);
    var offers := Offers(dims);
    var valueIds := ValueIds(offers, db.nextValue);
    match PivotRows(entries, ids, dimensionIds, valueIds)
    case Err(error) => Err(error)
    case Ok(rows) =>
      Ok(cleared.(dimensions := WithDimensions(cleared.dimensions, p, db.nextDimension, |dims|),
                  values := WithValues(cleared.values, offers, dimensionIds, db.nextValue),
                  pivots := cleared.pivots + rows,
                  nextDimension := db.nextDimension + |dims|, nextValue := db.nextValue + |offers|))
  }

  predicate HadDimensions(db: Db, p: Id) {
    exists d :: d in db.dimensions && db.dimensions[d] == p
  }

  function OptionIds(dims: seq<Dimension>): set<string> {
    set i | 0 <= i < |Offers(dims)| :: Offers(dims)[i].option
  }

  datatype DimensionState = SingleToSingle | SingleToMulti | MultiToMulti | MultiToSingle

  function ResolveDimensionState(had: bool, has: bool): DimensionState {
    if !had && !has then SingleToSingle
    else if !had && has then SingleToMulti
    else if had && has then MultiToMulti
    else MultiToSingle
  }

  /** The variants written, before dimensions and pivot are touched. */
  function WriteVariants(db: Db, p: Id, q: Request): Result<Written, Error> {
    var archived := ArchiveMissing(db.variants, p, PayloadIds(q.variants));
    WriteAll(Written(archived, db.nextVariant, map[], []), p, InWriteOrder(q.variants), StatusMap(archived, p),
             if q.dimensions != [] then Some(OptionIds(q.dimensions)) else None)
  }

  /** The variant part of a product update; an error rolls everything back. */
  function UpdateVariants(db: Db, p: Id, q: Request): Result<Db, Error>
    requires q.variants != []
  {
    if ValidateVariantRules(q).Err? then Err(BadRequest)
    else
      match WriteVariants(db, p, q)
      case Err(error) => Err(error)
      case Ok(w) =>
        var written := db.(variants := w.variants, nextVariant := w.next);
        match ResolveDimensionState(HadDimensions(db, p), q.dimensions != [])
        case SingleToSingle => Ok(written)
        case MultiToSingle => Ok(Clear(written, p))
        case SingleToMulti => Rebuild(written, p, q.dimensions, q.variants, w.ids)
        case MultiToMulti => Rebuild(written, p, q.dimensions, q.variants, w.ids)
  }

  function UpdateStatus(db: Db, products: set<Id>, active: bool): Db {
    db.(variants := map id | id in db.variants ::
          if db.variants[id].product in products && db.variants[id].status != Archived
          then db.variants[id].(status := if active then Active else Inactive) else db.variants[id])
  }

  // Counting pivot rows.

  function Count(rows: seq<Pivot>, variant: Id, dimension: Id): nat {
    if rows == [] then 0
    else
      var n := |rows| - 1;
      Count(rows[..n], variant, dimension)
      + if rows[n].variant == variant && rows[n].dimension == dimension then 1 else 0
  }

  lemma {:induction false} CountConcat(a: seq<Pivot>, b: seq<Pivot>, variant: Id, dimension: Id)
    ensures Count(a + b, variant, dimension) == Count(a, variant, dimension) + Count(b, variant, dimension)
  {
    if b == [] {
      assert a + b == a;
    } else {
      var n := |b| - 1;
      assert (a + b)[..|a| + n] == a + b[..n];
      CountConcat(a, b[..n], variant, dimension);
    }
  }

  lemma {:induction false} CountIsZero(rows: seq<Pivot>, variant: Id, dimension: Id)
    requires forall i :: 0 <= i < |rows| ==> rows[i].variant != variant || rows[i].dimension != dimension
    ensures Count(rows, variant, dimension) == 0
  {
    if rows != [] {
      CountIsZero(rows[..|rows| - 1], variant, dimension);
    }
  }

  // One variant has one row for each dimension.

  function ChosenKeys(options: seq<Choice>): set<string> {
    set i | 0 <= i < |options| :: options[i].dimension
  }

  lemma {:induction false} ChosenKeysCount(options: seq<Choice>)
    requires ChoicesOnce(options)
    ensures |ChosenKeys(options)| == |options|
  {
    if options != [] {
      var n := |options| - 1;
      ChosenKeysCount(options[..n]);
      forall i | 0 <= i < n ensures options[..n][i] == options[i] {
      }
      assert ChosenKeys(options) == ChosenKeys(options[..n]) + {options[n].dimension};
    }
  }

  lemma {:induction false} DimensionIdsAt(dims: seq<Dimension>, next: Id, key: string)
    requires key in DimensionIds(dims, next)
    ensures next <= DimensionIds(dims, next)[key] < next + |dims|
    ensures dims[DimensionIds(dims, next)[key] - next].id == key
  {
    var n := |dims| - 1;
    if key != dims[n].id {
      DimensionIdsAt(dims[..n], next, key);
    }
  }

  lemma {:induction false} DimensionIdsSize(dims: seq<Dimension>, next: Id)
    ensures |DimensionIds(dims, next).Keys| <= |dims|
  {
    if dims != [] {
      var n := |dims| - 1;
      var before := DimensionIds(dims[..n], next);
      DimensionIdsSize(dims[..n], next);
      assert DimensionIds(dims, next).Keys == before.Keys + {dims[n].id};
    }
  }

  lemma RepeatedIdShrinks(dims: seq<Dimension>, next: Id)
    requires dims != [] && dims[|dims| - 1].id in DimensionIds(dims[..|dims| - 1], next)
    ensures |DimensionIds(dims, next).Keys| < |dims|
  {
    var n := |dims| - 1;
    DimensionIdsSize(dims[..n], next);
    assert DimensionIds(dims, next).Keys == DimensionIds(dims[..n], next).Keys;
  }

  /** When there are as many ids as dimensions, none is overwritten. */
  lemma {:induction false} DimensionIdsFull(dims: seq<Dimension>, next: Id, k: nat)
    requires |DimensionIds(dims, next).Keys| == |dims| && k < |dims|
    ensures dims[k].id in DimensionIds(dims, next) && DimensionIds(dims, next)[dims[k].id] == next + k
  {
    var n := |dims| - 1;
    var before := DimensionIds(dims[..n], next);
    DimensionIdsSize(dims[..n], next);
    assert DimensionIds(dims, next).Keys == before.Keys + {dims[n].id};
    if k < n {
      if dims[n].id in before {
        RepeatedIdShrinks(dims, next);
      }
      DimensionIdsFull(dims[..n], next, k);
      assert dims[..n][k] == dims[k];
    }
  }

  lemma {:induction false} PivotsOfShape(
      variant: Id, options: seq<Choice>, dimensionIds: map<string, Id>, valueIds: map<string, Id>, i: nat)
    requires PivotsOf(variant, options, dimensionIds, valueIds).Ok? && i < |options|
    ensures |PivotsOf(variant, options, dimensionIds, valueIds).value| == |options|
    ensures options[i].dimension in dimensionIds && options[i].option in valueIds
    ensures PivotsOf(variant, options, dimensionIds, valueIds).value[i]
              == Pivot(variant, dimensionIds[options[i].dimension], valueIds[options[i].option])
  {
    var n := |options| - 1;
    if n > 0 {
      PivotsOfShape(variant, options[..n], dimensionIds, valueIds, if i < n then i else 0);
    }
  }

  lemma {:induction false} CountsOnce(rows: seq<Pivot>, variant: Id, dimension: Id, i: nat)
    requires i < |rows| && rows[i].variant == variant && rows[i].dimension == dimension
    requires forall j :: 0 <= j < |rows| && j != i ==> rows[j].variant != variant || rows[j].dimension != dimension
    ensures Count(rows, variant, dimension) == 1
  {
    var n := |rows| - 1;
    if i < n {
      CountsOnce(rows[..n], variant, dimension, i);
    } else {
      CountIsZero(rows[..n], variant, dimension);
    }
  }

  /** The rows of one variant, choice by choice. */
  ghost predicate RowsOfChoices(rows: seq<Pivot>, variant: Id, options: seq<Choice>, ids: map<string, Id>) {
    && |rows| == |options|
    && forall i :: 0 <= i < |options| ==>
      options[i].dimension in ids && rows[i].variant == variant && rows[i].dimension == ids[options[i].dimension]
  }

  lemma PivotsAreChoices(variant: Id, options: seq<Choice>, ids: map<string, Id>, valueIds: map<string, Id>)
    requires PivotsOf(variant, options, ids, valueIds).Ok?
    ensures RowsOfChoices(PivotsOf(variant, options, ids, valueIds).value, variant, options, ids)
  {
    forall i | 0 <= i < |options|
      ensures |PivotsOf(variant, options, ids, valueIds).value| == |options| && options[i].dimension in ids
        && PivotsOf(variant, options, ids, valueIds).value[i].variant == variant
        && PivotsOf(variant, options, ids, valueIds).value[i].dimension == ids[options[i].dimension]
    {
      PivotsOfShape(variant, options, ids, valueIds, i);
    }
    if options != [] {
      PivotsOfShape(variant, options, ids, valueIds, 0);
    }
  }

  /** Choosing once for as many dimensions as there are means choosing for every one. */
  lemma EveryDimensionChosen(options: seq<Choice>, dims: seq<Dimension>, next: Id, d: Id)
    requires ChoicesOnce(options) && |options| == |dims| && next <= d < next + |dims|
    requires forall i :: 0 <= i < |options| ==> options[i].dimension in DimensionIds(dims, next)
    ensures exists i :: 0 <= i < |options| && DimensionIds(dims, next)[options[i].dimension] == d
  {
    var ids := DimensionIds(dims, next);
    ChosenKeysCount(options);
    DimensionIdsSize(dims, next);
    FiniteSets.SubsetOfSameSize(ChosenKeys(options), ids.Keys);
    DimensionIdsFull(dims, next, d - next);
    assert dims[d - next].id in ChosenKeys(options);
  }

  lemma DifferentDimensions(dims: seq<Dimension>, next: Id, a: string, b: string)
    requires a in DimensionIds(dims, next) && b in DimensionIds(dims, next) && a != b
    ensures DimensionIds(dims, next)[a] != DimensionIds(dims, next)[b]
  {
    DimensionIdsAt(dims, next, a);
    DimensionIdsAt(dims, next, b);
  }

  /** A variant that chooses once for as many dimensions as there are gets exactly one row for each of
      them, and none elsewhere. */
  lemma OneRowPerDimension(
      rows: seq<Pivot>, variant: Id, options: seq<Choice>, dims: seq<Dimension>, next: Id, other: Id, d: Id)
    requires RowsOfChoices(rows, variant, options, DimensionIds(dims, next)) && ChoicesOnce(options)
    requires |options| == |dims|
    ensures Count(rows, other, d) == if other == variant && next <= d < next + |dims| then 1 else 0
  {
    if other == variant && next <= d < next + |dims| {
      EveryDimensionChosen(options, dims, next, d);
      var i :| 0 <= i < |options| && DimensionIds(dims, next)[options[i].dimension] == d;
      forall j | 0 <= j < |rows| && j != i ensures rows[j].dimension != d {
        DifferentDimensions(dims, next, options[i].dimension, options[j].dimension);
      }
      CountsOnce(rows, variant, d, i);
    } else {
      forall j | 0 <= j < |rows| && rows[j].variant == other ensures rows[j].dimension != d {
        DimensionIdsAt(dims, next, options[j].dimension);
      }
      CountIsZero(rows, other, d);
    }
  }

  /** How many request variants have their pivot rows written under the row. */
  function Hits(entries: seq<Entry>, ids: map<string, Id>, variant: Id): nat {
    if entries == [] then 0
    else
      var n := |entries| - 1;
      Hits(entries[..n], ids, variant) + if Key(entries[n]) in ids && ids[Key(entries[n])] == variant then 1 else 0
  }

  /** The pivot holds for each variant and each dimension as many rows as request variants hit the variant. */
  lemma {:induction false} PivotRowsCount(
      entries: seq<Entry>, ids: map<string, Id>, dims: seq<Dimension>, next: Id, valueIds: map<string, Id>, variant: Id,
      d: Id)
    requires PivotRows(entries, ids, DimensionIds(dims, next), valueIds).Ok?
    requires forall i :: 0 <= i < |entries| ==> ChoicesOnce(entries[i].options) && |entries[i].options| == |dims|
    ensures Count(PivotRows(entries, ids, DimensionIds(dims, next), valueIds).value, variant, d)
              == if next <= d < next + |dims| then Hits(entries, ids, variant) else 0
  {
    if entries != [] {
      var n := |entries| - 1;
      PivotRowsCount(entries[..n], ids, dims, next, valueIds, variant, d);
      if Key(entries[n]) in ids {
        var target := ids[Key(entries[n])];
        var rows := PivotsOf(target, entries[n].options, DimensionIds(dims, next), valueIds).value;
        PivotsAreChoices(target, entries[n].options, DimensionIds(dims, next), valueIds);
        OneRowPerDimension(rows, target, entries[n].options, dims, next, variant, d);
        CountConcat(PivotRows(entries[..n], ids, DimensionIds(dims, next), valueIds).value, rows, variant, d);
      }
    }
  }

  predicate Hit(e: Entry, ids: map<string, Id>, variant: Id) {
    Key(e) in ids && ids[Key(e)] == variant
  }

  lemma {:induction false} HitsNone(entries: seq<Entry>, ids: map<string, Id>, variant: Id)
    requires forall i :: 0 <= i < |entries| ==> !Hit(entries[i], ids, variant)
    ensures Hits(entries, ids, variant) == 0
  {
    if entries != [] {
      HitsNone(entries[..|entries| - 1], ids, variant);
    }
  }

  lemma {:induction false} HitsAtLeastOne(entries: seq<Entry>, ids: map<string, Id>, variant: Id, i: nat)
    requires i < |entries| && Hit(entries[i], ids, variant)
    ensures Hits(entries, ids, variant) >= 1
  {
    if i < |entries| - 1 {
      HitsAtLeastOne(entries[..|entries| - 1], ids, variant, i);
    }
  }

  lemma {:induction false} HitsOneOrMore(entries: seq<Entry>, ids: map<string, Id>, variant: Id, i: nat)
    requires i < |entries| && Hit(entries[i], ids, variant)
    ensures Hits(entries, ids, variant) == 1
      <==> forall j :: 0 <= j < |entries| && j != i ==> !Hit(entries[j], ids, variant)
  {
    var n := |entries| - 1;
    if i < n {
      HitsOneOrMore(entries[..n], ids, variant, i);
      HitsAtLeastOne(entries[..n], ids, variant, i);
      assert forall j :: 0 <= j < n ==> entries[..n][j] == entries[j];
    } else if j :| 0 <= j < n && Hit(entries[j], ids, variant) {
      HitsAtLeastOne(entries[..n], ids, variant, j);
    } else {
      HitsNone(entries[..n], ids, variant);
    }
  }

  // Keys and rows.

  lemma {:induction false} FilterKeepsKeys(entries: seq<Entry>, keep: Entry -> bool)
    requires KeysOnce(entries)
    ensures KeysOnce(Sorting.Filter<Entry>(entries, keep))
  {
    if entries != [] {
      var rest := Sorting.Filter<Entry>(entries[1..], keep);
      FilterKeepsKeys(entries[1..], keep);
      forall j | 0 <= j < |rest| ensures Key(rest[j]) != Key(entries[0]) {
        Sorting.FilterMember(entries[1..], keep, rest[j]);
        var k :| 0 <= k < |entries[1..]| && entries[1..][k] == rest[j];
        assert entries[k + 1] == rest[j];
      }
    }
  }

  lemma WriteOrderMember(entries: seq<Entry>, e: Entry)
    ensures e in InWriteOrder(entries) <==> e in entries
  {
    Sorting.FilterMember(entries, HasId, e);
    Sorting.FilterMember(entries, HasNoId, e);
  }

  lemma OtherEntryOtherKey(entries: seq<Entry>, a: Entry, b: Entry)
    requires KeysOnce(entries) && a in entries && b in entries && a != b
    ensures Key(a) != Key(b)
  {
    var i :| 0 <= i < |entries| && entries[i] == a;
    var j :| 0 <= j < |entries| && entries[j] == b;
    assert i < j ==> Key(entries[i]) != Key(entries[j]);
  }

  lemma WriteOrderKeepsKeys(entries: seq<Entry>)
    requires KeysOnce(entries)
    ensures KeysOnce(InWriteOrder(entries))
  {
    var a, b := Sorting.Filter<Entry>(entries, HasId), Sorting.Filter<Entry>(entries, HasNoId);
    FilterKeepsKeys(entries, HasId);
    FilterKeepsKeys(entries, HasNoId);
    forall i, j | 0 <= i < |a| && 0 <= j < |b| ensures Key(a[i]) != Key(b[j]) {
      Sorting.FilterMember(entries, HasId, a[i]);
      Sorting.FilterMember(entries, HasNoId, b[j]);
      OtherEntryOtherKey(entries, a[i], b[j]);
    }
  }

  lemma TargetsDiffer(start: Variants, next: Id, p: Id, entries: seq<Entry>, w: Written, i: nat, j: nat)
    requires TargetsOk(start, next, p, entries, w) && KeysOnce(entries) && i < j < |entries|
    requires forall id :: id in start ==> id < next
    ensures w.targets[i] != w.targets[j]
  {
    assert TargetOk(start, next, p, w.next, entries[i], w.targets[i])
      && TargetOk(start, next, p, w.next, entries[j], w.targets[j]);
    assert Key(entries[i]) != Key(entries[j]);
  }

  /** The pivot rows of an entry go to the row it was written to, when no other entry has its key. */
  lemma OwnRow(entries: seq<Entry>, w: Written, i: nat)
    requires KeysOk(entries, w) && KeysOnce(entries) && i < |entries|
    ensures Key(entries[i]) in w.ids && w.ids[Key(entries[i])] == w.targets[i]
  {
    var k := LastKey(entries, Key(entries[i]));
    assert k == i;
  }

  /** What the writing leaves, over the request in its own order. */
  ghost predicate WroteRequest(start: Variants, next: Id, p: Id, entries: seq<Entry>, w: Written) {
    var order := InWriteOrder(entries);
    TargetsOk(start, next, p, order, w) && RowsOk(start, next, p, order, w) && KeysOk(order, w)
  }

  lemma OtherKeyNoHit(start: Variants, next: Id, p: Id, entries: seq<Entry>, w: Written, m: nat, e: Entry)
    requires WroteRequest(start, next, p, entries, w) && KeysOnce(InWriteOrder(entries)) && m < |w.targets|
    requires e in entries
    requires Key(e) != Key(InWriteOrder(entries)[m]) && forall id :: id in start ==> id < next
    ensures !Hit(e, w.ids, w.targets[m])
  {
    var order := InWriteOrder(entries);
    WriteOrderMember(entries, e);
    var k :| 0 <= k < |order| && order[k] == e;
    OwnRow(order, w, k);
    if k < m {
      TargetsDiffer(start, next, p, order, w, k, m);
    } else {
      TargetsDiffer(start, next, p, order, w, m, k);
    }
  }

  /** With distinct keys every written row is hit by exactly one request variant. */
  lemma HitOnce(start: Variants, next: Id, p: Id, entries: seq<Entry>, w: Written, m: nat)
    requires WroteRequest(start, next, p, entries, w) && KeysOnce(entries) && m < |w.targets|
    requires forall id :: id in start ==>
      id < next
    ensures Hits(entries, w.ids, w.targets[m]) == 1
  {
    var order := InWriteOrder(entries);
    WriteOrderKeepsKeys(entries);
    WriteOrderMember(entries, order[m]);
    OwnRow(order, w, m);
    var i :| 0 <= i < |entries| && entries[i] == order[m];
    forall j | 0 <= j < |entries| && j != i ensures !Hit(entries[j], w.ids, w.targets[m]) {
      assert Key(entries[j]) != Key(entries[i]);
      OtherKeyNoHit(start, next, p, entries, w, m, entries[j]);
    }
    HitsOneOrMore(entries, w.ids, w.targets[m], i);
  }

  lemma HitIsTarget(start: Variants, next: Id, p: Id, entries: seq<Entry>, w: Written, e: Entry)
    requires WroteRequest(start, next, p, entries, w) && e in entries
    ensures Key(e) in w.ids && w.ids[Key(e)] in w.targets
  {
    var order := InWriteOrder(entries);
    WriteOrderMember(entries, e);
    var k :| 0 <= k < |order| && order[k] == e;
    assert LastKey(order, Key(e)) >= k;
  }

  /** Two request variants with one key both hit the same written row. */
  lemma HitTwice(start: Variants, next: Id, p: Id, entries: seq<Entry>, w: Written, i: nat, j: nat)
    requires WroteRequest(start, next, p, entries, w) && i < j < |entries| && Key(entries[i]) == Key(entries[j])
    ensures Key(entries[i]) in w.ids && w.ids[Key(entries[i])] in w.targets
    ensures Hits(entries, w.ids, w.ids[Key(entries[i])]) != 1
  {
    HitIsTarget(start, next, p, entries, w, entries[i]);
    assert Hit(entries[j], w.ids, w.ids[Key(entries[i])]);
    HitsOneOrMore(entries, w.ids, w.ids[Key(entries[i])], i);
  }

  lemma NoTargetNoHit(start: Variants, next: Id, p: Id, entries: seq<Entry>, w: Written, id: Id)
    requires WroteRequest(start, next, p, entries, w) && id !in w.targets
    ensures Hits(entries, w.ids, id) == 0
  {
    forall i | 0 <= i < |entries| ensures !Hit(entries[i], w.ids, id) {
      HitIsTarget(start, next, p, entries, w, entries[i]);
    }
    HitsNone(entries, w.ids, id);
  }

  // The whole update.

  predicate Live(db: Db, p: Id, id: Id) {
    OfProduct(db, p, id) && db.variants[id].status != Archived
  }

  /** Ids are below the counters, and a pivot row joins a variant and a dimension of one product. */
  ghost predicate WellFormed(db: Db) {
    && (forall id :: id in db.variants ==> id < db.nextVariant)
    && (forall d :: d in db.dimensions ==> d < db.nextDimension)
    && (forall i :: 0 <= i < |db.pivots| ==> Joins(db, db.pivots[i]))
  }

  ghost predicate Joins(db: Db, row: Pivot) {
    row.variant in db.variants && row.dimension in db.dimensions
      && db.variants[row.variant].product == db.dimensions[row.dimension]
  }

  lemma RequestIsWritten(db: Db, p: Id, q: Request)
    requires WellFormed(db) && WriteVariants(db, p, q).Ok?
    ensures WroteRequest(ArchiveMissing(db.variants, p, PayloadIds(q.variants)), db.nextVariant, p, q.variants,
      WriteVariants(db, p, q).value)
  {
    AllWritten(ArchiveMissing(db.variants, p, PayloadIds(q.variants)), db.nextVariant, p, InWriteOrder(q.variants),
               if q.dimensions != [] then Some(OptionIds(q.dimensions)) else None);
  }

  lemma NamedIdIsTarget(start: Variants, next: Id, p: Id, entries: seq<Entry>, w: Written, id: Id)
    requires WroteRequest(start, next, p, entries, w) && id in PayloadIds(entries)
    ensures id in w.targets
  {
    var order := InWriteOrder(entries);
    var i :| 0 <= i < |entries| && entries[i].id == Some(id);
    WriteOrderMember(entries, entries[i]);
    var m :| 0 <= m < |order| && order[m] == entries[i];
    assert TargetOk(start, next, p, w.next, order[m], w.targets[m]);
  }

  /** The variants of the product that are not archived are exactly the rows written. */
  lemma LiveIsWritten(db: Db, p: Id, q: Request, w: Written, id: Id)
    requires SchemaOk(q)
    requires WroteRequest(ArchiveMissing(db.variants, p, PayloadIds(q.variants)), db.nextVariant, p, q.variants, w)
    ensures id in w.targets <==> id in w.variants && w.variants[id].product == p && w.variants[id].status != Archived
  {
    var start, order := ArchiveMissing(db.variants, p, PayloadIds(q.variants)), InWriteOrder(q.variants);
    if id in PayloadIds(q.variants) {
      NamedIdIsTarget(start, db.nextVariant, p, q.variants, w, id);
    }
    if id in w.targets {
      var m :| 0 <= m < |w.targets| && w.targets[m] == id;
      assert TargetOk(start, db.nextVariant, p, w.next, order[m], id);
      var k := LastWrite(w.targets, id);
      assert RowOk(start, p, order, w, id);
      WriteOrderMember(q.variants, order[k]);
    } else if id in w.variants {
      assert RowOk(start, p, order, w, id);
    }
  }

  lemma OtherVariantsStay(db: Db, p: Id, q: Request, w: Written, id: Id)
    requires WroteRequest(ArchiveMissing(db.variants, p, PayloadIds(q.variants)), db.nextVariant, p, q.variants, w)
    requires WellFormed(db) && id in db.variants
    ensures id in w.variants && w.variants[id].product == db.variants[id].product
    ensures db.variants[id].product != p || db.variants[id].status == Archived ==>
      w.variants[id] == db.variants[id] && id !in w.targets
  {
    var start, order := ArchiveMissing(db.variants, p, PayloadIds(q.variants)), InWriteOrder(q.variants);
    assert RowOk(start, p, order, w, id);
    if id in w.targets {
      var m :| 0 <= m < |w.targets| && w.targets[m] == id;
      assert TargetOk(start, db.nextVariant, p, w.next, order[m], id);
    }
  }

  // Pivot rows after the update.

  lemma {:induction false} FilterCount(rows: seq<Pivot>, keep: Pivot -> bool, variant: Id, d: Id)
    ensures (forall row: Pivot :: row.variant == variant ==> keep(row)) ==>
      Count(Sorting.Filter<Pivot>(rows, keep), variant, d) == Count(rows, variant, d)
    ensures (forall row: Pivot :: row.variant == variant ==> !keep(row)) ==>
      Count(Sorting.Filter<Pivot>(rows, keep), variant, d) == 0
  {
    if rows != [] {
      var head, rest := if keep(rows[0]) then [rows[0]] else [], Sorting.Filter<Pivot>(rows[1..], keep);
      FilterCount(rows[1..], keep, variant, d);
      CountConcat(head, rest, variant, d);
      CountConcat([rows[0]], rows[1..], variant, d);
      assert rows == [rows[0]] + rows[1..];
      assert Count([], variant, d) == 0;
    }
  }

  lemma ClearCount(db: Db, p: Id, variant: Id, d: Id)
    ensures Count(Clear(db, p).pivots, variant, d) == if OfProduct(db, p, variant) then 0
      else Count(db.pivots, variant, d)
  {
    FilterCount(db.pivots, KeepsPivot(db, p), variant, d);
  }

  lemma NoDimensionsNoRows(db: Db, p: Id, variant: Id, d: Id)
    requires WellFormed(db) && !HadDimensions(db, p) && (variant !in db.variants || db.variants[variant].product == p)
    ensures Count(db.pivots, variant, d) == 0
  {
    forall i | 0 <= i < |db.pivots| ensures db.pivots[i].variant != variant {
      assert Joins(db, db.pivots[i]);
    }
    CountIsZero(db.pivots, variant, d);
  }

  lemma RowsAfterRebuild(
      db: Db, p: Id, dims: seq<Dimension>, entries: seq<Entry>, ids: map<string, Id>, variant: Id, d: Id)
    requires Rebuild(db, p, dims, entries, ids).Ok?
    requires forall i :: 0 <= i < |entries| ==> ChoicesOnce(entries[i].options) && |entries[i].options| == |dims|
    ensures var after := Rebuild(db, p, dims, entries, ids).value;
      && (d in after.dimensions && after.dimensions[d] == p <==> db.nextDimension <= d < db.nextDimension + |dims|)
      && Count(after.pivots, variant, d) == (if OfProduct(db, p, variant) then 0 else Count(db.pivots, variant, d))
           + if db.nextDimension <= d < db.nextDimension + |dims| then Hits(entries, ids, variant) else 0
  {
    var valueIds := ValueIds(Offers(dims), db.nextValue);
    var rows := PivotRows(entries, ids, DimensionIds(dims, db.nextDimension), valueIds).value;
    ClearCount(db, p, variant, d);
    PivotRowsCount(entries, ids, dims, db.nextDimension, valueIds, variant, d);
    CountConcat(Clear(db, p).pivots, rows, variant, d);
  }

  /** How many pivot rows a variant of the product has for a dimension after the update: as many as
      request variants hit it, for the new dimensions; none else. */
  lemma RowsAfterUpdate(db: Db, p: Id, q: Request, variant: Id, d: Id)
    requires WellFormed(db) && SchemaOk(q) && UpdateVariants(db, p, q).Ok?
    requires OfProduct(UpdateVariants(db, p, q).value, p, variant)
    ensures var after, w := UpdateVariants(db, p, q).value, WriteVariants(db, p, q).value;
      && (d in after.dimensions && after.dimensions[d] == p
        <==> q.dimensions != [] && db.nextDimension <= d < db.nextDimension + |q.dimensions|)
      && Count(after.pivots, variant, d) ==
           if q.dimensions != [] && db.nextDimension <= d < db.nextDimension + |q.dimensions|
             then Hits(q.variants, w.ids, variant) else 0
  {
    var w := WriteVariants(db, p, q).value;
    var written := db.(variants := w.variants, nextVariant := w.next);
    if q.dimensions != [] {
      RowsAfterRebuild(written, p, q.dimensions, q.variants, w.ids, variant, d);
    } else if HadDimensions(db, p) {
      ClearCount(written, p, variant, d);
    } else {
      RequestIsWritten(db, p, q);
      if variant in db.variants {
        OtherVariantsStay(db, p, q, w, variant);
      }
      NoDimensionsNoRows(db, p, variant, d);
    }
  }

  /** Every variant of the product that is not archived has one row for each dimension. */
  ghost predicate OncePerDimension(db: Db, p: Id) {
    forall v, d :: Live(db, p, v) && d in db.dimensions && db.dimensions[d] == p ==> Count(db.pivots, v, d) == 1
  }

  ghost predicate ArchivedHaveNone(db: Db, p: Id) {
    forall v, d :: OfProduct(db, p, v) && db.variants[v].status == Archived ==> Count(db.pivots, v, d) == 0
  }

  lemma UpdatedVariants(db: Db, p: Id, q: Request)
    requires SchemaOk(q) && UpdateVariants(db, p, q).Ok?
    ensures WriteVariants(db, p, q).Ok?
    ensures UpdateVariants(db, p, q).value.variants == WriteVariants(db, p, q).value.variants
  {
  }

  /** After a successful update each variant in use has exactly one pivot row per dimension exactly when
      the keys of the request variants are distinct, the key being the id, or the client id of a new one;
      a client id that spells the id of another variant of the request is enough to break it. */
  lemma PivotOnceIff(db: Db, p: Id, q: Request)
    requires WellFormed(db) && SchemaOk(q) && UpdateVariants(db, p, q).Ok? && q.dimensions != []
    ensures OncePerDimension(UpdateVariants(db, p, q).value, p) <==> KeysOnce(q.variants)
  {
    var after, w := UpdateVariants(db, p, q).value, WriteVariants(db, p, q).value;
    var start := ArchiveMissing(db.variants, p, PayloadIds(q.variants));
    UpdatedVariants(db, p, q);
    RequestIsWritten(db, p, q);
    if KeysOnce(q.variants) {
      forall v, d | Live(after, p, v) && d in after.dimensions && after.dimensions[d] == p
        ensures Count(after.pivots, v, d) == 1
      {
        RowsAfterUpdate(db, p, q, v, d);
        LiveIsWritten(db, p, q, w, v);
        var m :| 0 <= m < |w.targets| && w.targets[m] == v;
        HitOnce(start, db.nextVariant, p, q.variants, w, m);
      }
    } else {
      var i, j :| 0 <= i < j < |q.variants| && Key(q.variants[i]) == Key(q.variants[j]);
      HitTwice(start, db.nextVariant, p, q.variants, w, i, j);
      var v := w.ids[Key(q.variants[i])];
      LiveIsWritten(db, p, q, w, v);
      RowsAfterUpdate(db, p, q, v, db.nextDimension);
      assert Live(after, p, v) && Count(after.pivots, v, db.nextDimension) != 1;
    }
  }

  /** Whatever the keys, archived variants are left without pivot rows. */
  lemma UpdateStripsArchived(db: Db, p: Id, q: Request)
    requires WellFormed(db) && SchemaOk(q) && UpdateVariants(db, p, q).Ok?
    ensures ArchivedHaveNone(UpdateVariants(db, p, q).value, p)
  {
    var after, w := UpdateVariants(db, p, q).value, WriteVariants(db, p, q).value;
    UpdatedVariants(db, p, q);
    RequestIsWritten(db, p, q);
    forall v, d | OfProduct(after, p, v) && after.variants[v].status == Archived
      ensures Count(after.pivots, v, d) == 0
    {
      RowsAfterUpdate(db, p, q, v, d);
      LiveIsWritten(db, p, q, w, v);
      NoTargetNoHit(ArchiveMissing(db.variants, p, PayloadIds(q.variants)), db.nextVariant, p, q.variants, w, v);
    }
  }

  // The variants in use are the request's.

  lemma {:induction false} KeptIsCounted(entries: seq<Entry>, keep: Entry -> bool, i: nat)
    requires i < |entries| && keep(entries[i])
    ensures |Sorting.Filter<Entry>(entries, keep)| >= 1
  {
    if i > 0 {
      KeptIsCounted(entries[1..], keep, i - 1);
    }
  }

  lemma {:induction false} OnlyOneKept(entries: seq<Entry>, keep: Entry -> bool, i: nat, j: nat)
    requires i < |entries| && j < |entries| && keep(entries[i]) && keep(entries[j])
    requires |Sorting.Filter<Entry>(entries, keep)| == 1
    ensures i == j
  {
    if i > 0 {
      KeptIsCounted(entries[1..], keep, i - 1);
    }
    if j > 0 {
      KeptIsCounted(entries[1..], keep, j - 1);
    }
    if i > 0 && j > 0 {
      OnlyOneKept(entries[1..], keep, i - 1, j - 1);
    }
  }

  lemma EntryWritten(db: Db, p: Id, q: Request, w: Written, i: nat)
    requires WroteRequest(ArchiveMissing(db.variants, p, PayloadIds(q.variants)), db.nextVariant, p, q.variants, w)
    requires KeysOnce(q.variants) && i < |q.variants| && forall id :: id in db.variants ==> id < db.nextVariant
    ensures Key(q.variants[i]) in w.ids && w.ids[Key(q.variants[i])] in w.targets
    ensures var id := w.ids[Key(q.variants[i])];
      && id in w.variants && Holds(w.variants[id], p, q.variants[i])
      && if q.variants[i].id.Some? then id == q.variants[i].id.value else id !in db.variants
  {
    var start, order := ArchiveMissing(db.variants, p, PayloadIds(q.variants)), InWriteOrder(q.variants);
    WriteOrderKeepsKeys(q.variants);
    WriteOrderMember(q.variants, q.variants[i]);
    var m :| 0 <= m < |order| && order[m] == q.variants[i];
    OwnRow(order, w, m);
    var id := w.targets[m];
    assert TargetOk(start, db.nextVariant, p, w.next, order[m], id);
    forall k | m < k < |order| ensures w.targets[k] != id {
      TargetsDiffer(start, db.nextVariant, p, order, w, m, k);
    }
    assert LastWrite(w.targets, id) == m;
    assert RowOk(start, p, order, w, id);
  }

  lemma WrittenIsEntry(start: Variants, next: Id, p: Id, entries: seq<Entry>, w: Written, id: Id) returns (i: nat)
    requires WroteRequest(start, next, p, entries, w) && KeysOnce(entries) && id in w.targets
    ensures i < |entries| && Key(entries[i]) in w.ids && w.ids[Key(entries[i])] == id
  {
    var order := InWriteOrder(entries);
    var m :| 0 <= m < |w.targets| && w.targets[m] == id;
    WriteOrderKeepsKeys(entries);
    WriteOrderMember(entries, order[m]);
    OwnRow(order, w, m);
    i :| 0 <= i < |entries| && entries[i] == order[m];
  }

  /** rows lists, entry by entry, the variants in use: each holds what its entry says, an entry with an id
      keeps its row, an entry without one gets a new row, and exactly one is primary. */
  ghost predicate Reconciled(before: Db, after: Db, p: Id, entries: seq<Entry>, rows: seq<Id>) {
    && |rows| == |entries|
    && (forall i, j :: 0 <= i < j < |rows| ==> rows[i] != rows[j])
    && (forall id :: Live(after, p, id) <==> id in rows)
    && (forall i :: 0 <= i < |rows| ==> HoldsEntry(before, after, p, entries[i], rows[i]))
    && (exists i :: 0 <= i < |rows| && PrimaryRow(after, rows[i]))
    && (forall a, b :: Live(after, p, a) && Live(after, p, b) && PrimaryRow(after, a) && PrimaryRow(after, b) ==>
      a == b)
  }

  ghost predicate PrimaryRow(db: Db, id: Id) {
    id in db.variants && db.variants[id].primary
  }

  ghost predicate HoldsEntry(before: Db, after: Db, p: Id, e: Entry, id: Id) {
    && id in after.variants && Holds(after.variants[id], p, e)
    && if e.id.Some? then id == e.id.value && Live(before, p, id) else id !in before.variants
  }

  lemma HitDifferently(start: Variants, next: Id, p: Id, entries: seq<Entry>, w: Written, i: nat, j: nat)
    requires WroteRequest(start, next, p, entries, w) && KeysOnce(entries) && i < j < |entries|
    requires forall id :: id in start ==>
      id < next
    requires Key(entries[i]) in w.ids && Key(entries[j]) in w.ids
    ensures w.ids[Key(entries[i])] != w.ids[Key(entries[j])]
  {
    var order := InWriteOrder(entries);
    WriteOrderMember(entries, entries[i]);
    var m :| 0 <= m < |order| && order[m] == entries[i];
    WriteOrderKeepsKeys(entries);
    OwnRow(order, w, m);
    assert Key(entries[i]) != Key(entries[j]);
    OtherKeyNoHit(start, next, p, entries, w, m, entries[j]);
  }

  lemma NamedWasLive(db: Db, p: Id, q: Request, w: Written, i: nat)
    requires WroteRequest(ArchiveMissing(db.variants, p, PayloadIds(q.variants)), db.nextVariant, p, q.variants, w)
    requires i < |q.variants| && q.variants[i].id.Some?
    ensures Live(db, p, q.variants[i].id.value)
  {
    var start, order := ArchiveMissing(db.variants, p, PayloadIds(q.variants)), InWriteOrder(q.variants);
    WriteOrderMember(q.variants, q.variants[i]);
    var m :| 0 <= m < |order| && order[m] == q.variants[i];
    assert TargetOk(start, db.nextVariant, p, w.next, order[m], w.targets[m]);
  }

  /** Everything known of a written request with distinct keys. */
  ghost predicate WroteOnce(db: Db, p: Id, q: Request, w: Written) {
    && WellFormed(db) && SchemaOk(q) && KeysOnce(q.variants)
    && WroteRequest(ArchiveMissing(db.variants, p, PayloadIds(q.variants)), db.nextVariant, p, q.variants, w)
  }

  ghost predicate RowsOfKeys(entries: seq<Entry>, w: Written, rows: seq<Id>) {
    |rows| == |entries| && forall i :: 0 <= i < |rows| ==> Key(entries[i]) in w.ids && rows[i] == w.ids[Key(entries[i])]
  }

  lemma LiveIsRow(db: Db, p: Id, q: Request, w: Written, rows: seq<Id>, id: Id)
    requires WroteOnce(db, p, q, w) && RowsOfKeys(q.variants, w, rows)
    ensures id in w.variants && w.variants[id].product == p && w.variants[id].status != Archived <==> id in rows
  {
    LiveIsWritten(db, p, q, w, id);
    if id in w.targets {
      var i := WrittenIsEntry(ArchiveMissing(db.variants, p, PayloadIds(q.variants)), db.nextVariant, p, q.variants, w,
        id);
      assert rows[i] == id;
    }
    if id in rows {
      var i :| 0 <= i < |rows| && rows[i] == id;
      EntryWritten(db, p, q, w, i);
    }
  }

  lemma RowHoldsEntry(db: Db, after: Db, p: Id, q: Request, w: Written, rows: seq<Id>, i: nat)
    requires WroteOnce(db, p, q, w) && RowsOfKeys(q.variants, w, rows) && after.variants == w.variants && i < |rows|
    ensures HoldsEntry(db, after, p, q.variants[i], rows[i])
  {
    EntryWritten(db, p, q, w, i);
    if q.variants[i].id.Some? {
      NamedWasLive(db, p, q, w, i);
    }
  }

  lemma RowsDiffer(db: Db, p: Id, q: Request, w: Written, rows: seq<Id>, i: nat, j: nat)
    requires WroteOnce(db, p, q, w) && RowsOfKeys(q.variants, w, rows) && i < j < |rows|
    ensures rows[i] != rows[j]
  {
    HitDifferently(ArchiveMissing(db.variants, p, PayloadIds(q.variants)), db.nextVariant, p, q.variants, w, i, j);
  }

  lemma KeysAreRows(db: Db, p: Id, q: Request, w: Written) returns (rows: seq<Id>)
    requires WroteOnce(db, p, q, w)
    ensures RowsOfKeys(q.variants, w, rows)
  {
    forall i | 0 <= i < |q.variants| ensures Key(q.variants[i]) in w.ids {
      EntryWritten(db, p, q, w, i);
    }
    rows := seq(|q.variants|, i requires 0 <= i < |q.variants| => w.ids[Key(q.variants[i])]);
  }

  lemma WrittenReconciles(db: Db, after: Db, p: Id, q: Request, w: Written) returns (rows: seq<Id>)
    requires WroteOnce(db, p, q, w) && ValidateVariantRules(q).Ok? && after.variants == w.variants
    ensures Reconciled(db, after, p, q.variants, rows)
  {
    rows := KeysAreRows(db, p, q, w);
    forall i | 0 <= i < |rows| ensures HoldsEntry(db, after, p, q.variants[i], rows[i]) {
      RowHoldsEntry(db, after, p, q, w, rows, i);
    }
    forall i, j | 0 <= i < j < |rows| ensures rows[i] != rows[j] {
      RowsDiffer(db, p, q, w, rows, i, j);
    }
    forall id ensures Live(after, p, id) <==> id in rows {
      LiveIsRow(db, p, q, w, rows, id);
    }
    OnePrimaryRow(db, after, p, q, rows);
  }

  /** After a successful update with distinct keys the variants in use are exactly the request's. */
  lemma VariantReconciliation(db: Db, p: Id, q: Request) returns (rows: seq<Id>)
    requires WellFormed(db) && SchemaOk(q) && UpdateVariants(db, p, q).Ok? && KeysOnce(q.variants)
    ensures Reconciled(db, UpdateVariants(db, p, q).value, p, q.variants, rows)
  {
    UpdatedVariants(db, p, q);
    RequestIsWritten(db, p, q);
    rows := WrittenReconciles(db, UpdateVariants(db, p, q).value, p, q, WriteVariants(db, p, q).value);
  }

  lemma OnePrimaryRow(db: Db, after: Db, p: Id, q: Request, rows: seq<Id>)
    requires q.variants != [] && ValidateVariantRules(q).Ok? && |rows| == |q.variants|
    requires forall id :: Live(after, p, id) <==> id in rows
    requires forall i :: 0 <= i < |rows| ==> HoldsEntry(db, after, p, q.variants[i], rows[i])
    ensures exists i :: 0 <= i < |rows| && PrimaryRow(after, rows[i])
    ensures forall a, b :: Live(after, p, a) && Live(after, p, b) && PrimaryRow(after, a) && PrimaryRow(after, b) ==>
      a == b
  {
    var primaries := Sorting.Filter<Entry>(q.variants, IsPrimary);
    assert primaries[0] in primaries;
    Sorting.FilterMember(q.variants, IsPrimary, primaries[0]);
    var i :| 0 <= i < |q.variants| && q.variants[i] == primaries[0];
    assert HoldsEntry(db, after, p, q.variants[i], rows[i]);
    assert PrimaryRow(after, rows[i]);
    forall a, b | Live(after, p, a) && Live(after, p, b) && PrimaryRow(after, a) && PrimaryRow(after, b)
      ensures a == b
    {
      var x :| 0 <= x < |rows| && rows[x] == a;
      var y :| 0 <= y < |rows| && rows[y] == b;
      assert HoldsEntry(db, after, p, q.variants[x], a) && HoldsEntry(db, after, p, q.variants[y], b);
      OnlyOneKept(q.variants, IsPrimary, x, y);
    }
  }
}
