/** Keyset pagination of the product listing: one page, following the cursor, and exactly when the pages
    together are the whole listing. */
module Pagination {
  import opened Wrappers
  import Sorting

  // The joined rows.

  datatype Variant = Variant(id: nat, active: bool, primary: bool, price: int)

  datatype Image = Image(id: nat, orphan: bool)

  /** createdAt counts microseconds, as the column does. */
  datatype Product = Product(id: nat, active: bool, createdAt: int, variants: seq<Variant>, images: seq<Image>)

  datatype SortBy = CreatedAt | Price

  datatype Direction = Asc | Desc

  /** One row of the listing: the value of the sort column and the product's id. */
  datatype Row = Row(key: int, id: nat)

  predicate ShownBefore(a: Variant, b: Variant) {
    if a.primary != b.primary then a.primary else a.id < b.id
  }

  function ActiveInOrder(p: Product): seq<Variant> {
    Sorting.Sort<Variant>(Sorting.Filter<Variant>(p.variants, (v: Variant) => v.active), ShownBefore)
  }

  /** The active variant the lateral join picks. */
  function DisplayVariant(p: Product): Option<Variant> {
    var ordered := ActiveInOrder(p);
    if ordered == [] then None else Some(ordered[0])
  }

  predicate HasImage(p: Product) {
    exists i :: 0 <= i < |p.images| && !p.images[i].orphan
  }

  /** The inner joins drop a product without an active variant or without an image in use.  wanted stands
      for the scope, price and dimension conditions. */
  function JoinedRow(p: Product, sort: SortBy, wanted: (Product, Variant) -> bool): Option<Row> {
    match DisplayVariant(p)
    case None => None
    case Some(v) =>
      if p.active && HasImage(p) && wanted(p, v) then Some(Row(if sort == Price then v.price else p.createdAt, p.id))
        else None
  }

  function JoinedRows(products: seq<Product>, sort: SortBy, wanted: (Product, Variant) -> bool): seq<Row> {
    if products == [] then []
    else
      (match JoinedRow(products[0], sort, wanted) case Some(row) => [row]
        case None => []) + JoinedRows(products[1..], sort, wanted)
  }

  ghost predicate DistinctIds(rows: seq<Row>) {
    forall i, j :: 0 <= i < j < |rows| ==> rows[i].id != rows[j].id
  }

  lemma {:induction false} JoinedRowOf(products: seq<Product>, sort: SortBy, wanted: (Product, Variant) -> bool, k: nat)
    requires k < |JoinedRows(products, sort, wanted)|
    ensures exists i ::
      0 <= i < |products| && JoinedRow(products[i], sort, wanted) == Some(JoinedRows(products, sort, wanted)[k])
  {
    var head := JoinedRow(products[0], sort, wanted);
    if head == None || k > 0 {
      var at := if head == None then k else k - 1;
      JoinedRowOf(products[1..], sort, wanted, at);
      var i :| 0 <= i < |products[1..]|
        && JoinedRow(products[1..][i], sort, wanted) == Some(JoinedRows(products[1..], sort, wanted)[at]);
      assert products[i + 1] == products[1..][i];
    }
  }

  /** Each product gives at most one row. */
  lemma {:induction false} JoinsGiveOneRow(products: seq<Product>, sort: SortBy, wanted: (Product, Variant) -> bool)
    requires forall i, j :: 0 <= i < j < |products| ==> products[i].id != products[j].id
    ensures DistinctIds(JoinedRows(products, sort, wanted))
  {
    if products != [] {
      var tail := JoinedRows(products[1..], sort, wanted);
      JoinsGiveOneRow(products[1..], sort, wanted);
      forall k | 0 <= k < |tail| ensures tail[k].id != products[0].id {
        JoinedRowOf(products[1..], sort, wanted, k);
      }
    }
  }

  // Which products are listed, and with which key.

  ghost predicate VariantIdsDiffer(p: Product) {
    forall i, j :: 0 <= i < j < |p.variants| ==> p.variants[i].id != p.variants[j].id
  }

  /** v is active, and no other active variant comes before it: primary ones first, then smaller ids. */
  ghost predicate ShownFirst(p: Product, v: Variant) {
    && v in p.variants && v.active
    && forall w :: w in p.variants && w.active ==>
         !(w.primary && !v.primary) && !(w.primary == v.primary && w.id < v.id)
  }

  lemma ActiveInOrderHolds(p: Product)
    ensures Sorting.Sorted(ActiveInOrder(p), ShownBefore)
    ensures forall w :: w in ActiveInOrder(p) <==> w in p.variants && w.active
  {
    var active := Sorting.Filter<Variant>(p.variants, (v: Variant) => v.active);
    Sorting.SortKeepsElements(active, ShownBefore);
    Sorting.SameElements(ActiveInOrder(p), active);
    Sorting.SortSorts(active, ShownBefore);
    forall w ensures w in ActiveInOrder(p) <==> w in p.variants && w.active {
      Sorting.FilterMember(p.variants, (v: Variant) => v.active, w);
    }
  }

  lemma OneShownFirst(p: Product, v: Variant, w: Variant)
    requires VariantIdsDiffer(p) && ShownFirst(p, v) && ShownFirst(p, w)
    ensures v == w
  {
    var i :| 0 <= i < |p.variants| && p.variants[i] == w;
    var j :| 0 <= j < |p.variants| && p.variants[j] == v;
  }

  /** The variant shown is the one no other active variant comes before; there is none exactly when no
      variant is active. */
  lemma DisplayVariantMeaning(p: Product)
    requires VariantIdsDiffer(p)
    ensures match DisplayVariant(p)
      case Some(v) => ShownFirst(p, v) && forall w :: ShownFirst(p, w) ==> w == v
      case None => forall w :: w in p.variants ==> !w.active
  {
    var ordered := ActiveInOrder(p);
    ActiveInOrderHolds(p);
    if ordered != [] {
      var v := ordered[0];
      assert v in ordered;
      forall w | w in p.variants && w.active ensures !ShownBefore(w, v) {
        var i :| 0 <= i < |ordered| && ordered[i] == w;
      }
      forall w | ShownFirst(p, w) ensures w == v {
        OneShownFirst(p, v, w);
      }
    }
  }

  /** The listing shows p with the row r: p is active, has an image in use and a variant to show that the
      filters want, and r holds that variant's price or the time of creation, by the sort asked for. */
  ghost predicate Lists(p: Product, sort: SortBy, wanted: (Product, Variant) -> bool, v: Variant, r: Row) {
    && p.active && (exists k :: 0 <= k < |p.images| && !p.images[k].orphan)
    && ShownFirst(p, v) && wanted(p, v)
    && r.id == p.id && r.key == match sort case Price => v.price case CreatedAt => p.createdAt
  }

  lemma JoinedRowMeaning(p: Product, sort: SortBy, wanted: (Product, Variant) -> bool, r: Row)
    requires VariantIdsDiffer(p)
    ensures JoinedRow(p, sort, wanted) == Some(r) <==> exists v :: Lists(p, sort, wanted, v, r)
  {
    DisplayVariantMeaning(p);
    if JoinedRow(p, sort, wanted) == Some(r) {
      assert Lists(p, sort, wanted, DisplayVariant(p).value, r);
    }
  }

  /** A row is among the joined rows exactly when some product is listed with it. */
  lemma {:induction false} JoinedRowsMeaning(
      products: seq<Product>, sort: SortBy, wanted: (Product, Variant) -> bool, r: Row)
    requires forall i :: 0 <= i < |products| ==> VariantIdsDiffer(products[i])
    ensures r in JoinedRows(products, sort, wanted) <==>
      exists i, v :: 0 <= i < |products| && Lists(products[i], sort, wanted, v, r)
  {
    if products != [] {
      var rest := products[1..];
      JoinedRowMeaning(products[0], sort, wanted, r);
      JoinedRowsMeaning(rest, sort, wanted, r);
      if i, v :| 0 <= i < |rest| && Lists(rest[i], sort, wanted, v, r) {
        assert Lists(products[i + 1], sort, wanted, v, r);
      }
      if i, v :| 0 <= i < |products| && Lists(products[i], sort, wanted, v, r) && i > 0 {
        assert Lists(rest[i - 1], sort, wanted, v, r);
      }
    }
  }

  // One page.

  datatype Cursor = Cursor(value: int, id: nat)

  datatype Page = Page(items: seq<Row>, next: Option<Cursor>, hasMore: bool)

  /** The value the cursor carries: a price as it is, a timestamp cut to the millisecond. */
  function Shown(sort: SortBy, key: int): int {
    if sort == Price then key else key - key % 1000
  }

  function CursorOf(sort: SortBy, row: Row): Cursor {
    Cursor(Shown(sort, row.key), row.id)
  }

  /** ORDER BY column dir, id dir. */
  function Order(dir: Direction): (Row, Row) -> bool {
    (a: Row, b: Row) =>
      if dir == Asc then a.key < b.key || (a.key == b.key && a.id < b.id)
      else a.key > b.key || (a.key == b.key && a.id > b.id)
  }

  /** The cursor condition.  An absent or unreadable cursor sets none. */
  function After(dir: Direction, cursor: Option<Cursor>): Row -> bool {
    (r: Row) =>
      match cursor
      case None => true
      case Some(c) =>
        if dir == Asc then r.key > c.value || (r.key == c.value && r.id > c.id)
        else r.key < c.value || (r.key == c.value && r.id < c.id)
  }

  function Take(rows: seq<Row>, n: nat): seq<Row> {
    if |rows| <= n then rows else rows[..n]
  }

  /** limit is at least one by the request schema. */
  datatype Query = Query(sort: SortBy, dir: Direction, limit: nat)

  function PageAt(rows: seq<Row>, q: Query, cursor: Option<Cursor>): Page
    requires q.limit >= 1
  {
    var fetched := Take(Sorting.Sort<Row>(Sorting.Filter<Row>(rows, After(q.dir, cursor)), Order(q.dir)), q.limit + 1);
    var hasMore := |fetched| > q.limit;
    var items := if hasMore then fetched[..q.limit] else fetched;
    Page(items, if hasMore && |items| > 0 then Some(CursorOf(q.sort, items[|items| - 1])) else None, hasMore)
  }

  // Following the cursor.

  type Reader = Option<Cursor> -> Page

  /** Fixed data: every read goes to the same rows. */
  function ReaderOf(rows: seq<Row>, q: Query): Reader
    requires q.limit >= 1
  {
    (cursor: Option<Cursor>) => PageAt(rows, q, cursor)
  }

  /** The pages a caller reads, one after the other, until there is no next cursor. */
  datatype Pages = Final(page: Page) | More(page: Page, rest: Pages)

  ghost predicate Run(read: Reader, cursor: Option<Cursor>, pages: Pages)
    decreases pages
  {
    && pages.page == read(cursor)
    && match pages
       case Final(page) => page.next == None
       case More(page, rest) => page.next.Some? && Run(read, page.next, rest)
  }

  function Concat(pages: Pages): seq<Row> {
    match pages
    case Final(page) => page.items
    case More(page, rest) => page.items + Concat(rest)
  }

  function PageCount(pages: Pages): nat {
    match pages case Final(_) => 1 case More(_, rest) => 1 + PageCount(rest)
  }

  /** The whole listing. */
  function Listing(rows: seq<Row>, dir: Direction): seq<Row> {
    Sorting.Sort<Row>(rows, Order(dir))
  }

  ghost predicate Ascending(s: seq<Row>, dir: Direction) {
    forall i, j :: 0 <= i < j < |s| ==> Order(dir)(s[i], s[j])
  }

  /** A page that ends with last, the next row being next, is continued without loss or repetition.
      Ascending, the cursor must carry the key of last itself.  Descending, next must show a smaller value
      than last does, or have the very value the cursor carries and a smaller id. */
  predicate ExactEnd(q: Query, last: Row, next: Row) {
    match q.dir
    case Asc => Shown(q.sort, last.key) == last.key
    case Desc =>
      Shown(q.sort, next.key) < Shown(q.sort, last.key) || (next.key == Shown(q.sort, last.key) && next.id < last.id)
  }

  /** Every page end from position m on, except the end of the listing, is exact. */
  predicate PageEndsExact(listing: seq<Row>, q: Query, m: nat)
    requires q.limit >= 1
    decreases |listing| - m
  {
    m + q.limit < |listing| ==>
      ExactEnd(q, listing[m + q.limit - 1], listing[m + q.limit]) && PageEndsExact(listing, q, m + q.limit)
  }

  lemma ShowsLess(sort: SortBy, a: int, b: int)
    ensures Shown(sort, a) < Shown(sort, b) <==> a < Shown(sort, b)
  {
  }

  lemma OrderIsTotal(dir: Direction)
    ensures Sorting.StrictTotal(Order(dir))
  {
  }

  lemma {:induction false} FilterSuffix(s: seq<Row>, keep: Row -> bool, m: nat)
    requires m <= |s| && forall i :: 0 <= i < |s| ==> (keep(s[i]) <==> i >= m)
    ensures Sorting.Filter<Row>(s, keep) == s[m..]
  {
    if s != [] {
      FilterSuffix(s[1..], keep, if m == 0 then 0 else m - 1);
    }
  }

  lemma {:induction false} AtMostOnce(rows: seq<Row>, r: Row)
    requires DistinctIds(rows)
    ensures multiset(rows)[r] <= 1
  {
    if rows != [] {
      AtMostOnce(rows[1..], r);
      assert rows == [rows[0]] + rows[1..];
      forall k | 0 <= k < |rows[1..]| ensures rows[1..][k] != rows[0] {
        assert rows[1..][k] == rows[k + 1];
      }
      assert rows[0] !in rows[1..];
    }
  }

  lemma TwiceThere(s: seq<Row>, i: nat, j: nat)
    requires i < j < |s| && s[i] == s[j]
    ensures multiset(s)[s[i]] >= 2
  {
    assert s == s[..i] + [s[i]] + s[i + 1..j] + [s[j]] + s[j + 1..];
  }

  lemma RepeatsShow(rows: seq<Row>, s: seq<Row>, i: nat, j: nat)
    requires DistinctIds(rows) && multiset(rows) == multiset(s) && i < j < |s|
    ensures s[i] != s[j]
  {
    AtMostOnce(rows, s[i]);
    if s[i] == s[j] {
      TwiceThere(s, i, j);
    }
  }

  /** The listing holds the rows, strictly ordered. */
  lemma ListingIsOrdered(rows: seq<Row>, dir: Direction)
    requires DistinctIds(rows)
    ensures |Listing(rows, dir)| == |rows| && Ascending(Listing(rows, dir), dir)
    ensures forall r :: r in Listing(rows, dir) <==> r in rows
  {
    var s := Listing(rows, dir);
    OrderIsTotal(dir);
    Sorting.SortKeepsElements(rows, Order(dir));
    Sorting.SameElements(s, rows);
    Sorting.SortSorts(rows, Order(dir));
    forall i, j | 0 <= i < j < |s| ensures Order(dir)(s[i], s[j]) {
      RepeatsShow(rows, s, i, j);
    }
  }

  /** The rows a cursor leaves, in order. */
  function Remaining(listing: seq<Row>, dir: Direction, cursor: Option<Cursor>): seq<Row> {
    Sorting.Filter<Row>(listing, After(dir, cursor))
  }

  function FirstOf(rest: seq<Row>, q: Query): Page
    requires q.limit >= 1
  {
    if |rest| <= q.limit then Page(rest, None, false)
    else Page(rest[..q.limit], Some(CursorOf(q.sort, rest[q.limit - 1])), true)
  }

  /** Each read answers with the first of what its cursor leaves of the listing. */
  ghost predicate Serves(read: Reader, listing: seq<Row>, q: Query)
    requires q.limit >= 1
  {
    forall cursor :: read(cursor) == FirstOf(Remaining(listing, q.dir, cursor), q)
  }

  lemma ReaderServesListing(rows: seq<Row>, q: Query)
    requires q.limit >= 1
    ensures Serves(ReaderOf(rows, q), Listing(rows, q.dir), q)
  {
    OrderIsTotal(q.dir);
    forall cursor ensures PageAt(rows, q, cursor) == FirstOf(Remaining(Listing(rows, q.dir), q.dir, cursor), q) {
      Sorting.FilterOfSort(rows, After(q.dir, cursor), Order(q.dir));
    }
  }

  /** Descending, the row after the cursor's decides for all later rows. */
  lemma NextDecides(q: Query, last: Row, next: Row, later: Row)
    requires q.dir == Desc && ExactEnd(q, last, next) && (later == next || Order(Desc)(next, later))
    ensures After(Desc, Some(CursorOf(q.sort, last)))(later)
  {
    ShowsLess(q.sort, next.key, last.key);
  }

  lemma ExactCursorLeavesTheRest(s: seq<Row>, q: Query, m: nat)
    requires 0 < m < |s| && Ascending(s, q.dir) && ExactEnd(q, s[m - 1], s[m])
    ensures Remaining(s, q.dir, Some(CursorOf(q.sort, s[m - 1]))) == s[m..]
  {
    var last := s[m - 1];
    var keep := After(q.dir, Some(CursorOf(q.sort, last)));
    forall i | 0 <= i < |s| ensures keep(s[i]) <==> i >= m {
      assert i < m - 1 ==> Order(q.dir)(s[i], last);
      if i >= m && q.dir == Desc {
        NextDecides(q, last, s[m], s[i]);
      } else if i >= m {
        assert Order(q.dir)(last, s[i]);
      }
    }
    FilterSuffix(s, keep, m);
  }

  /** Descending, no later page goes back above the cursor. */
  lemma {:induction false} RunItems(read: Reader, s: seq<Row>, q: Query, cursor: Option<Cursor>, pages: Pages)
    requires q.limit >= 1 && q.dir == Desc && Serves(read, s, q) && Run(read, cursor, pages)
    ensures forall r :: r in Concat(pages) ==> After(Desc, cursor)(r)
    decreases pages
  {
    var items := pages.page.items;
    forall r | r in items ensures After(Desc, cursor)(r) {
      assert r in Remaining(s, Desc, cursor);
      Sorting.FilterMember(s, After(Desc, cursor), r);
    }
    if pages.More? {
      RunItems(read, s, q, pages.page.next, pages.rest);
      assert items[q.limit - 1] in items;
      forall r | r in Concat(pages.rest) ensures After(Desc, cursor)(r) {
        assert After(Desc, pages.page.next)(r);
      }
    }
  }

  lemma LostRow(s: seq<Row>, q: Query, m: nat, items: seq<Row>)
    requires q.dir == Desc && 0 < m < |s| && !ExactEnd(q, s[m - 1], s[m])
    requires forall r :: r in items ==> After(Desc, Some(CursorOf(q.sort, s[m - 1])))(r)
    ensures items != s[m..]
  {
    ShowsLess(q.sort, s[m].key, s[m - 1].key);
    assert !After(Desc, Some(CursorOf(q.sort, s[m - 1])))(s[m]);
    assert s[m..][0] == s[m];
    assert s[m] in s[m..] && s[m] !in items;
  }

  lemma FirstPageRepeats(read: Reader, s: seq<Row>, q: Query, last: Row, pages: Pages)
    requires q.limit >= 1 && q.dir == Asc && Ascending(s, Asc) && Serves(read, s, q)
    requires last in s && Shown(q.sort, last.key) != last.key && Run(read, Some(CursorOf(q.sort, last)), pages)
    ensures Concat(pages) != [] && !Order(Asc)(last, Concat(pages)[0])
  {
    var cursor := Some(CursorOf(q.sort, last));
    var rest := Remaining(s, Asc, cursor);
    Sorting.FilterMember(s, After(Asc, cursor), last);
    assert Sorting.Sorted(s, Order(Asc));
    Sorting.FilterSorted(s, After(Asc, cursor), Order(Asc));
    var k :| 0 <= k < |rest| && rest[k] == last;
    assert Concat(pages)[0] == rest[0];
  }

  /** After an inexact page end the pages that follow are not the rest of the listing: descending, a row
      is lost; ascending, the last row or one before it comes again. */
  lemma InexactEndShows(read: Reader, s: seq<Row>, q: Query, m: nat, pages: Pages)
    requires q.limit >= 1 && Serves(read, s, q) && Ascending(s, q.dir) && 0 < m < |s| && !ExactEnd(q, s[m - 1], s[m])
    requires Run(read, Some(CursorOf(q.sort, s[m - 1])), pages)
    ensures Concat(pages) != s[m..]
  {
    match q.dir
    case Desc =>
      RunItems(read, s, q, Some(CursorOf(q.sort, s[m - 1])), pages);
      LostRow(s, q, m, Concat(pages));
    case Asc =>
      FirstPageRepeats(read, s, q, s[m - 1], pages);
      assert s[m..][0] == s[m] && Order(Asc)(s[m - 1], s[m]);
  }

  lemma SameRest(s: seq<Row>, m: nat, e: nat, rest: seq<Row>)
    requires m <= e <= |s|
    ensures s[m..e] + rest == s[m..] <==> rest == s[e..]
  {
    assert s[m..] == s[m..e] + s[e..];
    assert (s[m..e] + rest)[e - m..] == rest && s[m..][e - m..] == s[e..];
  }

  lemma FirstPage(read: Reader, s: seq<Row>, q: Query, m: nat, cursor: Option<Cursor>)
    requires q.limit >= 1 && Serves(read, s, q) && m <= |s| && Remaining(s, q.dir, cursor) == s[m..]
    ensures read(cursor) ==
      if m + q.limit < |s| then Page(s[m..m + q.limit], Some(CursorOf(q.sort, s[m + q.limit - 1])), true)
        else Page(s[m..], None, false)
  {
    if m + q.limit < |s| {
      assert s[m..][..q.limit] == s[m..m + q.limit] && s[m..][q.limit - 1] == s[m + q.limit - 1];
    }
  }

  lemma NoCursorLeavesAll(s: seq<Row>, dir: Direction)
    ensures Remaining(s, dir, None) == s[0..] == s
  {
    FilterSuffix(s, After(dir, None), 0);
  }

  /** The cursor that stands after the first m rows, none at the start. */
  function CursorAt(s: seq<Row>, q: Query, m: nat): Option<Cursor>
    requires m <= |s|
  {
    if m == 0 then None else Some(CursorOf(q.sort, s[m - 1]))
  }

  ghost predicate ExactAt(s: seq<Row>, q: Query, m: nat)
    requires m < |s| || m == 0
  {
    m == 0 || ExactEnd(q, s[m - 1], s[m])
  }

  /** What one read from an exact position leaves to show. */
  lemma ReadStep(read: Reader, s: seq<Row>, q: Query, m: nat, pages: Pages)
    requires q.limit >= 1 && Serves(read, s, q) && Ascending(s, q.dir) && (m < |s| || m == 0) && ExactAt(s, q, m)
    requires Run(read, CursorAt(s, q, m), pages)
    ensures m + q.limit >= |s| ==> Concat(pages) == s[m..]
    ensures m + q.limit < |s| ==>
      && pages.More? && Run(read, CursorAt(s, q, m + q.limit), pages.rest)
      && (Concat(pages) == s[m..] <==> Concat(pages.rest) == s[m + q.limit..])
  {
    if m == 0 {
      NoCursorLeavesAll(s, q.dir);
    } else {
      ExactCursorLeavesTheRest(s, q, m);
    }
    FirstPage(read, s, q, m, CursorAt(s, q, m));
    if m + q.limit < |s| {
      SameRest(s, m, m + q.limit, Concat(pages.rest));
    }
  }

  lemma {:induction false} ExactPages(read: Reader, s: seq<Row>, q: Query, m: nat, pages: Pages)
    requires q.limit >= 1 && Serves(read, s, q) && Ascending(s, q.dir) && (m < |s| || m == 0) && ExactAt(s, q, m)
    requires Run(read, CursorAt(s, q, m), pages) && PageEndsExact(s, q, m)
    ensures Concat(pages) == s[m..]
    decreases pages
  {
    ReadStep(read, s, q, m, pages);
    if m + q.limit < |s| {
      ExactPages(read, s, q, m + q.limit, pages.rest);
    }
  }

  lemma {:induction false} InexactPages(read: Reader, s: seq<Row>, q: Query, m: nat, pages: Pages)
    requires q.limit >= 1 && Serves(read, s, q) && Ascending(s, q.dir) && (m < |s| || m == 0) && ExactAt(s, q, m)
    requires Run(read, CursorAt(s, q, m), pages) && !PageEndsExact(s, q, m)
    ensures Concat(pages) != s[m..]
    decreases pages
  {
    var e := m + q.limit;
    ReadStep(read, s, q, m, pages);
    if ExactAt(s, q, e) {
      InexactPages(read, s, q, e, pages.rest);
    } else {
      InexactEndShows(read, s, q, e, pages.rest);
    }
  }

  /** The pages read from the start are together exactly the listing, nothing skipped, nothing repeated,
      if and only if every page end is exact. */
  lemma PagesAreTheListingIff(rows: seq<Row>, q: Query, pages: Pages)
    requires q.limit >= 1 && DistinctIds(rows) && Run(ReaderOf(rows, q), None, pages)
    ensures Concat(pages) == Listing(rows, q.dir) <==> PageEndsExact(Listing(rows, q.dir), q, 0)
  {
    ListingIsOrdered(rows, q.dir);
    ReaderServesListing(rows, q);
    if PageEndsExact(Listing(rows, q.dir), q, 0) {
      ExactPages(ReaderOf(rows, q), Listing(rows, q.dir), q, 0, pages);
    } else {
      InexactPages(ReaderOf(rows, q), Listing(rows, q.dir), q, 0, pages);
    }
    assert Listing(rows, q.dir)[0..] == Listing(rows, q.dir);
  }

  // When there is no next cursor in the end.

  lemma {:induction false} PagesExist(
      read: Reader, s: seq<Row>, q: Query, m: nat, cursor: Option<Cursor>) returns (pages: Pages)
    requires q.limit >= 1 && Serves(read, s, q) && Ascending(s, q.dir) && m <= |s|
    requires Remaining(s, q.dir, cursor) == s[m..] && PageEndsExact(s, q, m)
    ensures Run(read, cursor, pages) && PageCount(pages) <= |s| - m + 1
    decreases |s| - m
  {
    var e := m + q.limit;
    var page := read(cursor);
    FirstPage(read, s, q, m, cursor);
    pages := Final(page);
    if e < |s| {
      ExactCursorLeavesTheRest(s, q, e);
      var rest := PagesExist(read, s, q, e, page.next);
      pages := More(page, rest);
    }
  }

  lemma {:induction false} RunIsUnique(read: Reader, cursor: Option<Cursor>, a: Pages, b: Pages)
    requires Run(read, cursor, a) && Run(read, cursor, b)
    ensures a == b
    decreases a
  {
    if a.More? {
      RunIsUnique(read, a.page.next, a.rest, b.rest);
    }
  }

  /** Reading on until there is no next cursor comes to an end with exactly the listing if and only if
      every page end is exact; a reading that never ends is one that does not. */
  lemma ReadingEndsWithListingIff(rows: seq<Row>, q: Query)
    requires q.limit >= 1 && DistinctIds(rows)
    ensures (exists pages :: Run(ReaderOf(rows, q), None, pages) && Concat(pages) == Listing(rows, q.dir))
       <==> PageEndsExact(Listing(rows, q.dir), q, 0)
  {
    if PageEndsExact(Listing(rows, q.dir), q, 0) {
      ListingIsOrdered(rows, q.dir);
      ReaderServesListing(rows, q);
      NoCursorLeavesAll(Listing(rows, q.dir), q.dir);
      var pages := PagesExist(ReaderOf(rows, q), Listing(rows, q.dir), q, 0, None);
      PagesAreTheListingIff(rows, q, pages);
    }
    forall pages | Run(ReaderOf(rows, q), None, pages) && Concat(pages) == Listing(rows, q.dir)
      ensures PageEndsExact(Listing(rows, q.dir), q, 0)
    {
      PagesAreTheListingIff(rows, q, pages);
    }
  }

  /** Sort keys the cursor carries exactly: every price, and timestamps on a whole millisecond. */
  ghost predicate ExactKeys(rows: seq<Row>, sort: SortBy) {
    sort == Price || forall r :: r in rows ==> r.key % 1000 == 0
  }

  lemma {:induction false} ExactKeysExactEnds(s: seq<Row>, q: Query, m: nat)
    requires q.limit >= 1 && ExactKeys(s, q.sort) && Ascending(s, q.dir)
    ensures PageEndsExact(s, q, m)
    decreases |s| - m
  {
    if m + q.limit < |s| {
      assert Order(q.dir)(s[m + q.limit - 1], s[m + q.limit]);
      ExactKeysExactEnds(s, q, m + q.limit);
    }
  }

  lemma ExactKeysReadExactly(rows: seq<Row>, q: Query) returns (pages: Pages)
    requires q.limit >= 1 && DistinctIds(rows) && ExactKeys(rows, q.sort)
    ensures Run(ReaderOf(rows, q), None, pages) && PageCount(pages) <= |rows| + 1
    ensures Concat(pages) == Listing(rows, q.dir)
  {
    var s, read := Listing(rows, q.dir), ReaderOf(rows, q);
    ListingIsOrdered(rows, q.dir);
    ReaderServesListing(rows, q);
    ExactKeysExactEnds(s, q, 0);
    NoCursorLeavesAll(s, q.dir);
    pages := PagesExist(read, s, q, 0, None);
    PagesAreTheListingIff(rows, q, pages);
  }

  /** For any limit and either direction, by price or by whole-millisecond timestamps, following the next
      cursor ends, and the pages are together exactly the products that match, in order, each once. */
  lemma KeysetPaginationIsExact(
      products: seq<Product>, q: Query, wanted: (Product, Variant) -> bool) returns (pages: Pages)
    requires q.limit >= 1 && forall i, j :: 0 <= i < j < |products| ==> products[i].id != products[j].id
    requires ExactKeys(JoinedRows(products, q.sort, wanted), q.sort)
    ensures var rows := JoinedRows(products, q.sort, wanted);
      && Run(ReaderOf(rows, q), None, pages)
      && (forall other :: Run(ReaderOf(rows, q), None, other) ==> other == pages)
      && Ascending(Concat(pages), q.dir) && multiset(Concat(pages)) == multiset(rows)
    ensures KeysRun(Concat(pages), q.dir)
    ensures (forall i :: 0 <= i < |products| ==> VariantIdsDiffer(products[i])) ==>
      forall r :: r in Concat(pages) <==>
        exists i, v :: 0 <= i < |products| && Lists(products[i], q.sort, wanted, v, r)
    ensures PagesFull(pages, q.limit)
  {
    var rows := JoinedRows(products, q.sort, wanted);
    JoinsGiveOneRow(products, q.sort, wanted);
    pages := ExactKeysReadExactly(rows, q);
    forall other | Run(ReaderOf(rows, q), None, other) ensures other == pages {
      RunIsUnique(ReaderOf(rows, q), None, other, pages);
    }
    ListingIsOrdered(rows, q.dir);
    Sorting.SortKeepsElements(rows, Order(q.dir));
    if forall i :: 0 <= i < |products| ==> VariantIdsDiffer(products[i]) {
      forall r ensures r in rows <==> exists i, v :: 0 <= i < |products| && Lists(products[i], q.sort, wanted, v, r) {
        JoinedRowsMeaning(products, q.sort, wanted, r);
      }
    }
    ReaderServesListing(rows, q);
    RunPagesAreFull(ReaderOf(rows, q), Listing(rows, q.dir), q, None, pages);
  }

  /** Ascending, keys rise, and ids among equal keys; descending, they fall. */
  ghost predicate KeysRun(s: seq<Row>, dir: Direction) {
    forall i, j :: 0 <= i < j < |s| ==>
      && (dir == Asc ==> s[i].key < s[j].key || (s[i].key == s[j].key && s[i].id < s[j].id))
      && (dir == Desc ==> s[j].key < s[i].key || (s[i].key == s[j].key && s[j].id < s[i].id))
  }

  /** Every page but the last holds exactly limit rows and says that there is more; the last holds at most
      limit and says that there is not. */
  ghost predicate PagesFull(pages: Pages, limit: nat) {
    match pages
    case Final(page) => |page.items| <= limit && !page.hasMore && page.next == None
    case More(page, rest) => |page.items| == limit && page.hasMore && page.next.Some? && PagesFull(rest, limit)
  }

  lemma {:induction false} RunPagesAreFull(read: Reader, s: seq<Row>, q: Query, cursor: Option<Cursor>, pages: Pages)
    requires q.limit >= 1 && Serves(read, s, q) && Run(read, cursor, pages)
    ensures PagesFull(pages, q.limit)
    decreases pages
  {
    if pages.More? {
      RunPagesAreFull(read, s, q, pages.page.next, pages.rest);
    }
  }

  /** Two products created in the same millisecond: newest first, the second never appears. */
  lemma NewestFirstLosesARow()
    ensures var rows := [Row(2_000_700, 1), Row(2_000_300, 2)];
      exists pages ::
        Run(ReaderOf(rows, Query(CreatedAt, Desc, 1)), None, pages) && Concat(pages) == [Row(2_000_700, 1)]
  {
    var rows, q := [Row(2_000_700, 1), Row(2_000_300, 2)], Query(CreatedAt, Desc, 1);
    var c := Some(Cursor(2_000_000, 1));
    assert Sorting.Filter<Row>(rows, After(Desc, None)) == rows;
    assert Listing(rows, Desc) == rows;
    assert PageAt(rows, q, None) == Page([rows[0]], c, true);
    assert Sorting.Filter<Row>(rows, After(Desc, c)) == [];
    assert PageAt(rows, q, c) == Page([], None, false);
    var second := Final(Page([], None, false));
    var pages := More(Page([rows[0]], c, true), second);
    assert Run(ReaderOf(rows, q), c, second);
    assert Run(ReaderOf(rows, q), None, pages);
    assert Concat(second) == [];
    assert Concat(pages) == [rows[0]] + Concat(second);
  }

  /** Oldest first with a limit of one, the same product comes back for ever: the cursor never changes, so
      no finite number of pages reaches the end. */
  lemma {:induction false} OldestFirstNeverEnds(pages: Pages)
    ensures !Run(ReaderOf([Row(2_000_300, 1), Row(2_000_700, 2)], Query(CreatedAt, Asc, 1)), Some(Cursor(2_000_000, 1)),
      pages)
    decreases pages
  {
    var rows, q := [Row(2_000_300, 1), Row(2_000_700, 2)], Query(CreatedAt, Asc, 1);
    var c := Some(Cursor(2_000_000, 1));
    assert Sorting.Filter<Row>(rows, After(Asc, c)) == rows;
    assert Listing(rows, Asc) == rows;
    assert PageAt(rows, q, c) == Page([rows[0]], c, true);
    if pages.More? {
      OldestFirstNeverEnds(pages.rest);
    }
  }
}
