/** The read-through cache of variant images: bulk reads, fills, invalidation after a product update and
    the clean-up of orphans. */
module ImageCache {
  import opened Wrappers
  import opened VariantImages

  /** A row of the join of product images and their metadata. */
  datatype Picture = Picture(id: Id, product: Id, imageId: Id, imageKey: string, sortOrder: int, orphan: bool)

  /** The tables, rows in the order in which queries without ORDER BY return them. */
  datatype Tables = Tables(signatures: seq<Row>, pictures: seq<Picture>)

  datatype Fallback = Fallback(imageId: Id, imageKey: string)

  datatype Entry = Entry(images: seq<Image>, fallback: Option<Fallback>)

  /** A cached text either parses to an entry or is corrupt. */
  datatype Cached = Parsed(entry: Entry) | Corrupt

  type Cache = map<Id, Cached>

  // The direct answer for one product.

  predicate InUse(r: Row, ids: set<Id>) {
    r.product in ids && !r.orphan
  }

  /** The signature rows of the given products that are not orphans. */
  function QuerySignatures(rows: seq<Row>, ids: set<Id>): seq<Row> {
    if rows == [] then []
    else
      var n := |rows| - 1;
      QuerySignatures(rows[..n], ids) + if InUse(rows[n], ids) then [rows[n]] else []
  }

  predicate Earlier(a: Picture, b: Picture) {
    a.sortOrder < b.sortOrder || (a.sortOrder == b.sortOrder && a.id < b.id)
  }

  /** The picture in use with the smallest position, and the smallest id among those. */
  function FirstPicture(pictures: seq<Picture>, p: Id): Option<Picture> {
    if pictures == [] then None
    else
      var n := |pictures| - 1;
      var before := FirstPicture(pictures[..n], p);
      if pictures[n].product == p && !pictures[n].orphan && (before.None? || Earlier(pictures[n], before.value))
        then Some(pictures[n]) else before
  }

  function FallbackOf(t: Tables, p: Id): Option<Fallback> {
    match FirstPicture(t.pictures, p) case None => None
      case Some(picture) => Some(Fallback(picture.imageId, picture.imageKey))
  }

  /** What an uncached read of one product computes. */
  function Direct(t: Tables, p: Id): Entry {
    Entry(BuildImages(QuerySignatures(t.signatures, {p})), FallbackOf(t, p))
  }

  /** Reading many products together gives each one its own rows. */
  lemma {:induction false} QueryIsPerProduct(rows: seq<Row>, ids: set<Id>, p: Id)
    requires p in ids
    ensures OfProduct(QuerySignatures(rows, ids), p) == QuerySignatures(rows, {p})
  {
    if rows != [] {
      var n := |rows| - 1;
      var before := QuerySignatures(rows[..n], ids);
      QueryIsPerProduct(rows[..n], ids, p);
      if InUse(rows[n], ids) {
        assert (before + [rows[n]])[..|before|] == before;
      } else {
        assert before + [] == before;
      }
    }
  }

  lemma BulkIsDirect(t: Tables, ids: set<Id>, p: Id)
    requires p in ids
    ensures Entry(ImagesOf(BuildAll(QuerySignatures(t.signatures, ids)), p), FallbackOf(t, p)) == Direct(t, p)
  {
    BuildAllIsPerProduct(QuerySignatures(t.signatures, ids), p);
    QueryIsPerProduct(t.signatures, ids, p);
  }

  // The cache.

  /** What a bulk read answers for one product. */
  function Answer(t: Tables, cache: Cache, p: Id): Entry {
    if p in cache && cache[p].Parsed? then cache[p].entry else Direct(t, p)
  }

  /** The cache after a bulk read: what was missing or corrupt is filled. */
  function Filled(t: Tables, cache: Cache, ids: set<Id>): Cache {
    map p | p in cache.Keys + ids :: if p in ids then Parsed(Answer(t, cache, p)) else cache[p]
  }

  class Service {
    const tables: Tables
    var cache: Cache

    constructor (tables: Tables, cache: Cache)
      ensures this.tables == tables && this.cache == cache
    {
      this.tables, this.cache := tables, cache;
    }

    /** The distinct ids, in order of first occurrence. */
    method Unique(ids: seq<Id>) returns (unique: seq<Id>)
      ensures forall p :: p in unique <==> p in ids
      ensures forall i, j :: 0 <= i < j < |unique| ==> unique[i] != unique[j]
    {
      unique := [];
      for i := 0 to |ids|
        invariant forall p :: p in unique <==> p in ids[..i]
        invariant forall i, j :: 0 <= i < j < |unique| ==> unique[i] != unique[j]
      {
        assert ids[..i + 1] == ids[..i] + [ids[i]];
        if ids[i] !in unique {
          unique := unique + [ids[i]];
        }
      }
      assert ids[..|ids|] == ids;
    }

    /** Take what the cache holds, delete what does not parse, and note what is missing. */
    method ReadCache(unique: seq<Id>) returns (result: map<Id, Entry>, missing: seq<Id>)
      modifies this`cache
      ensures forall p :: p in result <==> p in unique && p in old(cache) && old(cache)[p].Parsed?
      ensures forall p :: p in result ==> result[p] == old(cache)[p].entry
      ensures forall p :: p in missing <==> p in unique && !(p in old(cache) && old(cache)[p].Parsed?)
      ensures cache == map p | p in old(cache) && !(p in unique && old(cache)[p] == Corrupt) :: old(cache)[p]
    {
      result, missing := map[], [];
      var cached := cache;
      for i := 0 to |unique|
        invariant forall p :: p in result <==> p in unique[..i] && p in cached && cached[p].Parsed?
        invariant forall p :: p in result ==> result[p] == cached[p].entry
        invariant forall p :: p in missing <==> p in unique[..i] && !(p in cached && cached[p].Parsed?)
        invariant cache == map p | p in cached && !(p in unique[..i] && cached[p] == Corrupt) :: cached[p]
      {
        var p := unique[i];
        assert unique[..i + 1] == unique[..i] + [p];
        if p in cached {
          match cached[p] {
            case Parsed(entry) => result := result[p := entry];
            case Corrupt =>
              cache := cache - {p};
              missing := missing + [p];
          }
        } else {
          missing := missing + [p];
        }
      }
      assert unique[..|unique|] == unique;
    }

    /** Compute the missing entries together and store each one. */
    method Fill(missing: seq<Id>, known: map<Id, Entry>) returns (result: map<Id, Entry>)
      modifies this`cache
      ensures forall p :: p in result <==> p in known || p in missing
      ensures forall p :: p in result ==> result[p] == if p in missing then Direct(tables, p) else known[p]
      ensures forall p :: p in cache <==> p in old(cache) || p in missing
      ensures forall p :: p in cache ==> cache[p] == if p in missing then Parsed(Direct(tables, p)) else old(cache)[p]
    {
      result := known;
      var ids := set i | 0 <= i < |missing| :: missing[i];
      var images := BuildImageMap(QuerySignatures(tables.signatures, ids));
      for i := 0 to |missing|
        invariant forall p :: p in result <==> p in known || p in missing[..i]
        invariant forall p :: p in result ==> result[p] == if p in missing[..i] then Direct(tables, p) else known[p]
        invariant forall p :: p in cache <==> p in old(cache) || p in missing[..i]
        invariant forall p :: p in cache ==> cache[p] == if p in missing[..i] then Parsed(Direct(tables, p))
          else old(cache)[p]
      {
        var p := missing[i];
        assert missing[..i + 1] == missing[..i] + [p];
        var data := Entry(ImagesOf(images, p), FallbackOf(tables, p));
        BulkIsDirect(tables, ids, p);
        cache := cache[p := Parsed(data)];
        result := result[p := data];
      }
      assert missing[..|missing|] == missing;
    }

    method GetVariantImagesBulk(ids: seq<Id>) returns (result: map<Id, Entry>)
      modifies this`cache
      ensures forall p :: p in result <==> p in ids
      ensures forall p :: p in result ==> result[p] == Answer(tables, old(cache), p)
      ensures forall p :: p in result ==>
        result[p] == if p in old(cache) && old(cache)[p].Parsed? then old(cache)[p].entry else Direct(tables, p)
      ensures forall p :: p in result ==> p in cache && cache[p] == Parsed(result[p])
      ensures forall p :: p !in ids ==>
        (p in cache <==> p in old(cache)) && (p in cache ==> cache[p] == old(cache)[p])
      ensures cache == Filled(tables, old(cache), set p | p in ids)
    {
      var unique := Unique(ids);
      var missing;
      result, missing := ReadCache(unique);
      if |missing| > 0 {
        result := Fill(missing, result);
      }
    }
  }

  // Steps that may come between reads.

  /** pending holds, for each bulk read that has queried the tables and not yet stored everything, what
      it is about to store. */
  datatype State = State(tables: Tables, cache: Cache, pending: map<nat, map<Id, Entry>>)

  /** Read is a bulk read that nothing comes between; BeginFill and StoreFill are its parts: look up and
      query, then store one key.  Update is a committed product update together with the deletion of the
      product's key, CleanUp the deletion of some orphan rows, Expire the end of an entry's time to live,
      Damage a cached text that no longer parses. */
  datatype Step =
    | Read(ids: set<Id>)
    | BeginFill(reader: nat, ids: set<Id>)
    | StoreFill(reader: nat, product: Id)
    | Update(product: Id, tables: Tables)
    | CleanUp(signatures: set<Row>, pictures: set<Id>)
    | Expire(product: Id)
    | Damage(product: Id)

  /** No other product's direct answer changes. */
  ghost predicate ChangesOnly(p: Id, before: Tables, after: Tables) {
    forall q :: q != p ==> Direct(before, q) == Direct(after, q)
  }

  function KeepRows(rows: seq<Row>, gone: set<Row>): seq<Row> {
    if rows == [] then []
    else
      var n := |rows| - 1;
      KeepRows(rows[..n], gone) + if rows[n].orphan && rows[n] in gone then [] else [rows[n]]
  }

  function KeepPictures(pictures: seq<Picture>, gone: set<Id>): seq<Picture> {
    if pictures == [] then []
    else
      var n := |pictures| - 1;
      KeepPictures(pictures[..n], gone) + if pictures[n].orphan && pictures[n].id in gone then [] else [pictures[n]]
  }

  /** The clean-ups delete only orphan rows. */
  function CleanedUp(t: Tables, signatures: set<Row>, pictures: set<Id>): Tables {
    Tables(KeepRows(t.signatures, signatures), KeepPictures(t.pictures, pictures))
  }

  ghost predicate Enabled(s: State, step: Step) {
    match step
    case Update(p, tables) => ChangesOnly(p, s.tables, tables)
    case BeginFill(reader, _) => reader !in s.pending
    case StoreFill(reader, p) => reader in s.pending && p in s.pending[reader]
    case _ => true
  }

  function Missing(cache: Cache, ids: set<Id>): set<Id> {
    set p | p in ids && !(p in cache && cache[p].Parsed?)
  }

  function Apply(s: State, step: Step): State {
    match step
    case Read(ids) => s.(cache := Filled(s.tables, s.cache, ids))
    case BeginFill(reader, ids) =>
      s.(cache := s.cache - Missing(s.cache, ids),
         pending := s.pending[reader := map p | p in Missing(s.cache, ids) :: Direct(s.tables, p)])
    case StoreFill(reader, p) =>
      if reader in s.pending && p in s.pending[reader] then
        s.(cache := s.cache[p := Parsed(s.pending[reader][p])], pending := s.pending[reader := s.pending[reader] - {p}])
      else s
    case Update(p, tables) => s.(tables := tables, cache := s.cache - {p})
    case CleanUp(signatures, pictures) => s.(tables := CleanedUp(s.tables, signatures, pictures))
    case Expire(p) => s.(cache := s.cache - {p})
    case Damage(p) => s.(cache := s.cache[p := Corrupt])
  }

  /** What is cached or about to be stored for p is the direct answer. */
  ghost predicate AgreesOn(s: State, p: Id) {
    && (p in s.cache && s.cache[p].Parsed? ==> s.cache[p].entry == Direct(s.tables, p))
    && forall r :: r in s.pending && p in s.pending[r] ==> s.pending[r][p] == Direct(s.tables, p)
  }

  /** No update of p while a reader is about to store what it read for p. */
  ghost predicate Quiet(s: State, step: Step, p: Id) {
    step.Update? && step.product == p ==> forall r :: r in s.pending ==> p !in s.pending[r]
  }

  lemma {:induction false} CleanUpKeepsQuery(rows: seq<Row>, gone: set<Row>, ids: set<Id>)
    ensures QuerySignatures(KeepRows(rows, gone), ids) == QuerySignatures(rows, ids)
  {
    if rows != [] {
      var n := |rows| - 1;
      var kept := KeepRows(rows[..n], gone);
      CleanUpKeepsQuery(rows[..n], gone, ids);
      assert kept + [] == kept && (kept + [rows[n]])[..|kept|] == kept;
    }
  }

  lemma {:induction false} CleanUpKeepsFirst(pictures: seq<Picture>, gone: set<Id>, p: Id)
    ensures FirstPicture(KeepPictures(pictures, gone), p) == FirstPicture(pictures, p)
  {
    if pictures != [] {
      var n := |pictures| - 1;
      var kept := KeepPictures(pictures[..n], gone);
      CleanUpKeepsFirst(pictures[..n], gone, p);
      assert kept + [] == kept && (kept + [pictures[n]])[..|kept|] == kept;
    }
  }

  /** Deleting orphans changes no direct answer. */
  lemma CleanUpIsNeutral(t: Tables, signatures: set<Row>, pictures: set<Id>, p: Id)
    ensures Direct(CleanedUp(t, signatures, pictures), p) == Direct(t, p)
  {
    CleanUpKeepsQuery(t.signatures, signatures, {p});
    CleanUpKeepsFirst(t.pictures, pictures, p);
  }

  lemma StepKeepsAgreement(s: State, step: Step, p: Id)
    requires AgreesOn(s, p) && Enabled(s, step) && Quiet(s, step, p)
    ensures AgreesOn(Apply(s, step), p)
  {
    if step.CleanUp? {
      CleanUpIsNeutral(s.tables, step.signatures, step.pictures, p);
    }
  }

  ghost predicate Run(s: State, steps: seq<Step>)
    decreases |steps|
  {
    steps == [] || (Enabled(s, steps[0]) && Run(Apply(s, steps[0]), steps[1..]))
  }

  ghost predicate QuietRun(s: State, steps: seq<Step>, p: Id)
    decreases |steps|
  {
    steps == [] || (Quiet(s, steps[0], p) && QuietRun(Apply(s, steps[0]), steps[1..], p))
  }

  function After(s: State, steps: seq<Step>): State
    decreases |steps|
  {
    if steps == [] then s else After(Apply(s, steps[0]), steps[1..])
  }

  lemma {:induction false} RunKeepsAgreement(s: State, steps: seq<Step>, p: Id)
    requires AgreesOn(s, p) && Run(s, steps) && QuietRun(s, steps, p)
    ensures AgreesOn(After(s, steps), p)
    decreases |steps|
  {
    if steps != [] {
      StepKeepsAgreement(s, steps[0], p);
      RunKeepsAgreement(Apply(s, steps[0]), steps[1..], p);
    }
  }

  function Empty(tables: Tables): State {
    State(tables, map[], map[])
  }

  /** After any run from an empty cache a bulk read answers for a product what the uncached computation on
      the present tables answers, unless the product was updated while another reader was about to store
      what it had read for it. */
  lemma CacheIsTransparent(tables: Tables, steps: seq<Step>, p: Id)
    requires Run(Empty(tables), steps) && QuietRun(Empty(tables), steps, p)
    ensures var s := After(Empty(tables), steps); Answer(s.tables, s.cache, p) == Direct(s.tables, p)
  {
    RunKeepsAgreement(Empty(tables), steps, p);
  }

  /** When updates never meet a reader about to store, which holds where each bulk read runs undivided,
      the condition is met for every product. */
  lemma {:induction false} UndividedReadsAreQuiet(s: State, steps: seq<Step>, p: Id)
    requires s.pending == map[] && forall i :: 0 <= i < |steps| ==> !steps[i].BeginFill? && !steps[i].StoreFill?
    ensures QuietRun(s, steps, p)
    decreases |steps|
  {
    if steps != [] {
      assert !steps[0].BeginFill? && !steps[0].StoreFill?;
      UndividedReadsAreQuiet(Apply(s, steps[0]), steps[1..], p);
    }
  }

  lemma {:induction false} PendingStays(s: State, steps: seq<Step>, reader: nat, p: Id)
    requires Run(s, steps) && reader in s.pending && p in s.pending[reader]
    requires forall i :: 0 <= i < |steps| ==> steps[i] != StoreFill(reader, p)
    ensures reader in After(s, steps).pending && p in After(s, steps).pending[reader]
    ensures After(s, steps).pending[reader][p] == s.pending[reader][p]
    decreases |steps|
  {
    if steps != [] {
      assert steps[0] != StoreFill(reader, p);
      PendingStays(Apply(s, steps[0]), steps[1..], reader, p);
    }
  }

  /** A late store, after any run: whatever the state in which a reader queries and whatever happens until
      it stores, the answer cached then is right exactly when the product's direct answer is what it was
      at the query. */
  lemma LateStoreIsRightIff(s: State, reader: nat, ids: set<Id>, steps: seq<Step>, p: Id)
    requires reader !in s.pending && p in Missing(s.cache, ids) && Run(Apply(s, BeginFill(reader, ids)), steps)
    requires forall i :: 0 <= i < |steps| ==> steps[i] != StoreFill(reader, p)
    ensures var now := After(Apply(s, BeginFill(reader, ids)), steps);
      var stored := Apply(now, StoreFill(reader, p));
      && Enabled(now, StoreFill(reader, p)) && stored.tables == now.tables
      && (Answer(stored.tables, stored.cache, p) == Direct(stored.tables, p)
          <==> Direct(s.tables, p) == Direct(now.tables, p))
  {
    PendingStays(Apply(s, BeginFill(reader, ids)), steps, reader, p);
  }

  lemma ThreeSteps(s: State, a: Step, b: Step, c: Step)
    ensures After(s, [a, b, c]) == Apply(Apply(Apply(s, a), b), c)
    ensures Run(s, [a, b, c]) <==> Enabled(s, a) && Enabled(Apply(s, a), b) && Enabled(Apply(Apply(s, a), b), c)
  {
    var s3 := Apply(Apply(Apply(s, a), b), c);
    assert [a, b, c][1..] == [b, c] && [b, c][1..] == [c] && [c][1..] == [];
    assert After(s3, []) == s3 && Run(s3, []);
    assert After(Apply(Apply(s, a), b), [c]) == s3;
    assert Run(Apply(Apply(s, a), b), [c]) <==> Enabled(Apply(Apply(s, a), b), c);
  }

  /** The condition is needed: a reader queries, an update commits and deletes the key, the reader stores.
      The run is possible, and the cached answer is then right only if the update changed nothing. */
  lemma LateFillIsStaleIff(before: Tables, after: Tables, p: Id)
    requires ChangesOnly(p, before, after)
    ensures var steps := [BeginFill(0, {p}), Update(p, after), StoreFill(0, p)];
      var s := After(Empty(before), steps);
      && Run(Empty(before), steps) && s.tables == after
      && (Answer(s.tables, s.cache, p) == Direct(s.tables, p) <==> Direct(before, p) == Direct(after, p))
  {
    ThreeSteps(Empty(before), BeginFill(0, {p}), Update(p, after), StoreFill(0, p));
  }

  ghost predicate NoneEarlier(pictures: seq<Picture>, p: Id, first: Picture) {
    forall i :: 0 <= i < |pictures| && pictures[i].product == p && !pictures[i].orphan ==> !Earlier(pictures[i], first)
  }

  /** The fallback is the picture in use that comes first by position and id. */
  lemma {:induction false} FirstPictureIsFirst(pictures: seq<Picture>, p: Id)
    ensures match FirstPicture(pictures, p)
      case None => forall i :: 0 <= i < |pictures| ==> pictures[i].product != p || pictures[i].orphan
      case Some(first) => first in pictures && first.product == p && !first.orphan && NoneEarlier(pictures, p, first)
  {
    if pictures != [] {
      FirstPictureIsFirst(pictures[..|pictures| - 1], p);
    }
  }

  /** The fallback carries the image of the picture in use that comes first by position and id; there is
      none exactly when no picture of the product is in use. */
  lemma FallbackMeaning(t: Tables, p: Id)
    ensures match FallbackOf(t, p)
      case None => forall i :: 0 <= i < |t.pictures| ==> t.pictures[i].product != p || t.pictures[i].orphan
      case Some(f) =>
        (exists first :: first in t.pictures && first.product == p && !first.orphan && InFront(t.pictures, p, first)
           && f.imageId == first.imageId && f.imageKey == first.imageKey)
  {
    FirstPictureIsFirst(t.pictures, p);
    if FallbackOf(t, p).Some? {
      assert InFront(t.pictures, p, FirstPicture(t.pictures, p).value);
    }
  }

  /** No picture of the product in use has a smaller position, or the same position and a smaller id. */
  ghost predicate InFront(pictures: seq<Picture>, p: Id, first: Picture) {
    forall i :: 0 <= i < |pictures| && pictures[i].product == p && !pictures[i].orphan ==>
      first.sortOrder < pictures[i].sortOrder
      || (first.sortOrder == pictures[i].sortOrder && first.id <= pictures[i].id)
  }

  /** A query keeps exactly the rows of the given products that are not orphans. */
  lemma {:induction false} QueryMeaning(rows: seq<Row>, ids: set<Id>, r: Row)
    ensures r in QuerySignatures(rows, ids) <==> r in rows && r.product in ids && !r.orphan
  {
    if rows != [] {
      var n := |rows| - 1;
      QueryMeaning(rows[..n], ids, r);
      assert rows == rows[..n] + [rows[n]];
    }
  }

  /** What an uncached read answers: one image for each key among the product's rows in use, each signed by
      those rows and named by the first of them. */
  lemma DirectMeaning(t: Tables, p: Id)
    ensures var images, rows := Direct(t, p).images, QuerySignatures(t.signatures, {p});
      && KeysDiffer(images)
      && (forall i :: 0 <= i < |images| ==> SignedBy(rows, images[i]) && NamedByFirst(rows, images[i]))
      && (forall key ::
            HasImage(images, key) <==>
            exists r :: r in t.signatures && r.product == p && !r.orphan && r.imageKey == key)
    ensures Direct(t, p).fallback == FallbackOf(t, p)
  {
    var rows := QuerySignatures(t.signatures, {p});
    ImagesMeaning(rows);
    ImagesAreNamedByFirst(rows);
    forall key
      ensures HasImage(BuildImages(rows), key) <==>
        exists r :: r in t.signatures && r.product == p && !r.orphan && r.imageKey == key
    {
      ImageForEachKey(rows, key);
      if r :| r in t.signatures && r.product == p && !r.orphan && r.imageKey == key {
        QueryMeaning(t.signatures, {p}, r);
        var i :| 0 <= i < |rows| && rows[i] == r;
      }
      if i :| 0 <= i < |rows| && rows[i].imageKey == key {
        QueryMeaning(t.signatures, {p}, rows[i]);
      }
    }
  }

  /** The image an item is shown with: its best match, the fallback when nothing matches. */
  ghost predicate RightImage(entry: Entry, chosen: map<string, string>, image: Option<Fallback>) {
    if exists i :: 0 <= i < |entry.images| && Matches(entry.images[i], chosen)
    then exists at: nat ::
      Best(entry.images, chosen, at) && image == Some(Fallback(entry.images[at].imageId, entry.images[at].imageKey))
    else image == entry.fallback
  }

  method ImageOfItem(
      answers: map<Id, Entry>, p: Id, snapshot: seq<Choice>, lower: string -> string) returns (image: Option<Fallback>)
    ensures if p in answers then RightImage(answers[p], Normalized(snapshot, lower), image) else image == None
  {
    if p !in answers {
      return None;
    }
    var best, at := FindBestImage(answers[p].images, snapshot, lower);
    image := if best.Some? then Some(Fallback(best.value.0, best.value.1)) else answers[p].fallback;
  }
}
