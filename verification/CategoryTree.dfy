/** Category reads: the subtree of one category as a tree of linked nodes, and the menu as a forest. */
module CategoryTree {
  import opened Wrappers
  import Sorting
  import opened Paths
  import opened Categories

  datatype Row = Row(id: Id, category: Category)

  ghost predicate Distinct(rows: seq<Row>) {
    forall i, j :: 0 <= i < j < |rows| ==> rows[i].id != rows[j].id
  }

  /** rows is the answer of a query over the table that keeps exactly the ids of wanted, in some order. */
  ghost predicate Answers(rows: seq<Row>, table: Rows, wanted: set<Id>) {
    && Distinct(rows)
    && (forall i :: 0 <= i < |rows| ==>
      rows[i].id in wanted && rows[i].id in table && table[rows[i].id] == rows[i].category)
    && (forall id :: id in wanted ==> Listed(rows, id))
  }

  ghost predicate Listed(rows: seq<Row>, id: Id) {
    exists i :: 0 <= i < |rows| && rows[i].id == id
  }

  // What linking the rows means.

  /** The rows that keep accepts, in the order of the rows. */
  function Select(rows: seq<Row>, keep: Row -> bool): seq<Row> {
    if rows == [] then []
    else
      var n := |rows| - 1;
      Select(rows[..n], keep) + if keep(rows[n]) then [rows[n]] else []
  }

  function HasParent(id: Id): Row -> bool {
    (r: Row) => r.category.parent == Some(id)
  }

  function HasNoParentIn(all: set<Id>): Row -> bool {
    (r: Row) => r.category.parent.None? || r.category.parent.value !in all
  }

  function Kids(rows: seq<Row>, id: Id): seq<Row> {
    Select(rows, HasParent(id))
  }

  function Tops(rows: seq<Row>, all: set<Id>): seq<Row> {
    Select(rows, HasNoParentIn(all))
  }

  function Ids(rows: seq<Row>): (ids: seq<Id>)
    ensures |ids| == |rows| && forall i :: 0 <= i < |rows| ==> ids[i] == rows[i].id
  {
    seq(|rows|, i requires 0 <= i < |rows| => rows[i].id)
  }

  function IdSet(rows: seq<Row>): set<Id> {
    set i | 0 <= i < |rows| :: rows[i].id
  }

  function SortsBefore(a: Row, b: Row): bool {
    a.category.sortOrder < b.category.sortOrder
  }

  function SortedKids(rows: seq<Row>, id: Id): seq<Row> {
    Sorting.Sort<Row>(Kids(rows, id), SortsBefore)
  }

  /** How often j occurs. */
  ghost function Count(ids: seq<Id>, j: Id): nat {
    if ids == [] then 0 else (if ids[0] == j then 1 else 0) + Count(ids[1..], j)
  }

  lemma {:induction false} CountConcat(a: seq<Id>, b: seq<Id>, j: Id)
    ensures Count(a + b, j) == Count(a, j) + Count(b, j)
  {
    if a == [] {
      assert a + b == b;
    } else {
      CountConcat(a[1..], b, j);
      assert (a + b)[1..] == a[1..] + b;
    }
  }

  lemma {:induction false} CountsIfThere(ids: seq<Id>, j: Id)
    ensures Count(ids, j) > 0 <==> j in ids
  {
    if ids != [] {
      CountsIfThere(ids[1..], j);
      assert ids == [ids[0]] + ids[1..];
    }
  }

  lemma OnlyOne(ids: seq<Id>, id: Id)
    requires forall j :: Count(ids, j) == if j == id then 1 else 0
    ensures ids == [id]
  {
    CountsIfThere(ids, id);
    CountsIfThere(ids, ids[0]);
    assert ids[0] == id;
    CountsIfThere(ids[1..], id);
    if |ids| > 1 {
      CountsIfThere(ids, ids[1]);
    }
  }

  ghost predicate Has(rows: seq<Row>, j: Id, keep: Row -> bool) {
    exists i :: 0 <= i < |rows| && rows[i].id == j && keep(rows[i])
  }

  lemma IdsConcat(a: seq<Row>, b: seq<Row>)
    ensures Ids(a + b) == Ids(a) + Ids(b)
  {
  }

  lemma HasSnoc(rows: seq<Row>, j: Id, keep: Row -> bool)
    requires rows != [] && Distinct(rows)
    ensures var n := |rows| - 1;
      && (Has(rows, j, keep) <==> Has(rows[..n], j, keep) || (rows[n].id == j && keep(rows[n])))
      && !(Has(rows[..n], j, keep) && rows[n].id == j)
  {
    var n := |rows| - 1;
    if Has(rows, j, keep) {
      var i :| 0 <= i < |rows| && rows[i].id == j && keep(rows[i]);
      if i < n {
        assert rows[..n][i] == rows[i];
      }
    }
    if Has(rows[..n], j, keep) {
      var i :| 0 <= i < n && rows[..n][i].id == j && keep(rows[..n][i]);
      assert rows[..n][i] == rows[i];
    }
  }

  /** Every row that keep accepts is selected once. */
  lemma {:induction false} SelectCount(rows: seq<Row>, keep: Row -> bool, j: Id)
    requires Distinct(rows)
    ensures Count(Ids(Select(rows, keep)), j) == if Has(rows, j, keep) then 1 else 0
  {
    if rows != [] {
      var n := |rows| - 1;
      var front := Select(rows[..n], keep);
      HasSnoc(rows, j, keep);
      SelectCount(rows[..n], keep, j);
      if keep(rows[n]) {
        IdsConcat(front, [rows[n]]);
        CountConcat(Ids(front), [rows[n].id], j);
        assert Ids([rows[n]]) == [rows[n].id];
      } else {
        assert Select(rows, keep) == front;
      }
    }
  }

  lemma IdsFirst(rows: seq<Row>, j: Id)
    requires rows != []
    ensures Count(Ids(rows), j) == (if rows[0].id == j then 1 else 0) + Count(Ids(rows[1..]), j)
  {
    assert Ids(rows[1..]) == Ids(rows)[1..];
  }

  lemma {:induction false} InsertIds(x: Row, rows: seq<Row>, j: Id)
    ensures Count(Ids(Sorting.Insert<Row>(x, rows, SortsBefore)), j) ==
      (if x.id == j then 1 else 0) + Count(Ids(rows), j)
  {
    var after := Sorting.Insert<Row>(x, rows, SortsBefore);
    IdsFirst(after, j);
    if rows == [] || !SortsBefore(rows[0], x) {
      assert after[1..] == rows;
    } else {
      InsertIds(x, rows[1..], j);
      IdsFirst(rows, j);
      assert after[1..] == Sorting.Insert<Row>(x, rows[1..], SortsBefore);
    }
  }

  /** Sorting the children keeps each of them. */
  lemma {:induction false} SortIds(rows: seq<Row>, j: Id)
    ensures Count(Ids(Sorting.Sort<Row>(rows, SortsBefore)), j) == Count(Ids(rows), j)
  {
    if rows != [] {
      SortIds(rows[1..], j);
      InsertIds(rows[0], Sorting.Sort<Row>(rows[1..], SortsBefore), j);
      IdsFirst(rows, j);
    }
  }

  // Reading a linked structure.

  type Links = map<Id, seq<Id>>

  /** Links run from a smaller id to a larger one, below next. */
  ghost predicate Downward(links: Links, next: Id) {
    forall c, k :: c in links && 0 <= k < |links[c]| ==> c < links[c][k] < next && links[c][k] in links
  }

  ghost predicate Within(ids: seq<Id>, links: Links, floor: Id, next: Id) {
    forall k :: 0 <= k < |ids| ==> floor <= ids[k] < next && ids[k] in links
  }

  /** All ids met when the given nodes are walked from top to bottom. */
  ghost function Walk(links: Links, next: Id, floor: Id, ids: seq<Id>): seq<Id>
    requires Downward(links, next) && Within(ids, links, floor, next)
    decreases next - floor, |ids|
  {
    if ids == [] then []
    else [ids[0]] + Walk(links, next, ids[0] + 1, links[ids[0]]) + Walk(links, next, floor, ids[1..])
  }

  /** Node j is linked under its parent, if it has one, once, and under no other node. */
  ghost predicate LinkedUnder(links: Links, j: Id, parent: Option<Id>) {
    forall c :: c in links ==> Count(links[c], j) == if parent == Some(c) then 1 else 0
  }

  lemma {:induction false} WalkCount(links: Links, next: Id, floor: Id, ids: seq<Id>, j: Id, parent: Option<Id>)
    requires Downward(links, next) && Within(ids, links, floor, next) && LinkedUnder(links, j, parent)
    ensures var met := Walk(links, next, floor, ids);
      Count(met, j) == Count(ids, j) + if parent.Some? then Count(met, parent.value) else 0
    decreases next - floor, |ids|
  {
    if ids != [] {
      var c := ids[0];
      WalkCount(links, next, c + 1, links[c], j, parent);
      WalkCount(links, next, floor, ids[1..], j, parent);
      var first, rest := Walk(links, next, c + 1, links[c]), Walk(links, next, floor, ids[1..]);
      CountThree(c, first, rest, j);
      if parent.Some? {
        CountThree(c, first, rest, parent.value);
      }
    }
  }

  lemma CountThree(c: Id, first: seq<Id>, rest: seq<Id>, j: Id)
    ensures Count([c] + first + rest, j) == (if j == c then 1 else 0) + Count(first, j) + Count(rest, j)
  {
    CountConcat([c] + first, rest, j);
    assert ([c] + first)[1..] == first;
  }

  lemma {:induction false} WalkStaysIn(links: Links, next: Id, floor: Id, ids: seq<Id>, j: Id)
    requires Downward(links, next) && Within(ids, links, floor, next) && j in Walk(links, next, floor, ids)
    ensures j in links
    decreases next - floor, |ids|
  {
    var c := ids[0];
    if j != c {
      if j in Walk(links, next, c + 1, links[c]) {
        WalkStaysIn(links, next, c + 1, links[c], j);
      } else {
        WalkStaysIn(links, next, floor, ids[1..], j);
      }
    }
  }

  /** links joins each row to its children among the rows. */
  ghost predicate LinkRows(links: Links, rows: seq<Row>) {
    && links.Keys == IdSet(rows)
    && forall id, j :: id in links ==> Count(links[id], j) == Count(Ids(Kids(rows, id)), j)
  }

  lemma RowsAreLinked(links: Links, rows: seq<Row>, i: nat)
    requires Distinct(rows) && LinkRows(links, rows) && i < |rows|
    ensures var parent := rows[i].category.parent;
      LinkedUnder(links, rows[i].id, if parent.Some? && parent.value in links then parent else None)
  {
    var j, parent := rows[i].id, rows[i].category.parent;
    forall c | c in links ensures Count(links[c], j) == if parent == Some(c) then 1 else 0 {
      SelectCount(rows, HasParent(c), j);
      if Has(rows, j, HasParent(c)) {
        var k :| 0 <= k < |rows| && rows[k].id == j && HasParent(c)(rows[k]);
        assert k == i;
      }
    }
  }

  lemma LinksRunDown(links: Links, rows: seq<Row>, table: Rows, next: Id, wanted: set<Id>)
    requires Rooted(table, next) && Answers(rows, table, wanted) && LinkRows(links, rows)
    ensures Downward(links, next)
  {
    forall c, k | c in links && 0 <= k < |links[c]| ensures c < links[c][k] < next && links[c][k] in links {
      var j := links[c][k];
      CountsIfThere(links[c], j);
      assert Count(links[c], j) == Count(Ids(Kids(rows, c)), j);
      SelectCount(rows, HasParent(c), j);
      var i :| 0 <= i < |rows| && rows[i].id == j && HasParent(c)(rows[i]);
      assert table[j].parent == Some(c);
    }
  }

  lemma ListedIsKey(rows: seq<Row>, table: Rows, wanted: set<Id>, id: Id)
    requires Answers(rows, table, wanted)
    ensures id in IdSet(rows) <==> id in wanted
    ensures id in wanted ==> exists i :: 0 <= i < |rows| && rows[i] == Row(id, table[id])
  {
    if id in wanted {
      assert Listed(rows, id);
      var i :| 0 <= i < |rows| && rows[i].id == id;
      assert rows[i] == Row(id, table[id]);
    }
  }

  // The two answers.

  ghost function Subtree(table: Rows, root: Id): set<Id> {
    set j | j in table && root in Chain(table, j)
  }

  /** A row of the answer is met once more than its parent is, if it starts the walk, and as often otherwise. */
  lemma RowWalkCount(links: Links, rows: seq<Row>, table: Rows, next: Id, wanted: set<Id>, ids: seq<Id>, j: Id)
    requires Answers(rows, table, wanted) && LinkRows(links, rows) && Downward(links, next)
    requires Within(ids, links, 1, next) && j in wanted
    ensures j in links && j in table
    ensures var met := Walk(links, next, 1, ids);
      Count(met, j) == Count(ids, j) + if table[j].parent.Some? && table[j].parent.value in wanted
        then Count(met, table[j].parent.value) else 0
  {
    ListedIsKey(rows, table, wanted, j);
    var i :| 0 <= i < |rows| && rows[i] == Row(j, table[j]);
    RowsAreLinked(links, rows, i);
    var parent := table[j].parent;
    if parent.Some? {
      ListedIsKey(rows, table, wanted, parent.value);
    }
    WalkCount(links, next, 1, ids, j, if parent.Some? && parent.value in links then parent else None);
  }

  lemma NothingElseIsMet(links: Links, rows: seq<Row>, table: Rows, next: Id, wanted: set<Id>, ids: seq<Id>, j: Id)
    requires Answers(rows, table, wanted) && LinkRows(links, rows) && Downward(links, next)
    requires Within(ids, links, 1, next) && j !in wanted
    ensures Count(Walk(links, next, 1, ids), j) == 0
  {
    ListedIsKey(rows, table, wanted, j);
    CountsIfThere(Walk(links, next, 1, ids), j);
    if j in Walk(links, next, 1, ids) {
      WalkStaysIn(links, next, 1, ids, j);
    }
  }

  lemma SubtreeClosed(table: Rows, next: Id, root: Id, j: Id)
    requires Rooted(table, next) && root in table && j in Subtree(table, root)
    ensures j == root ==> !(table[j].parent.Some? && table[j].parent.value in Subtree(table, root))
    ensures j != root ==>
      table[j].parent.Some? && table[j].parent.value < j && table[j].parent.value in Subtree(table, root)
  {
    if j == root && table[j].parent.Some? {
      NotAboveParent(table, next, root);
    }
  }

  lemma TopsOfAnswer(rows: seq<Row>, table: Rows, wanted: set<Id>, j: Id)
    requires Answers(rows, table, wanted)
    ensures Count(Ids(Tops(rows, IdSet(rows))), j) ==
      if j in wanted && j in table && !(table[j].parent.Some? && table[j].parent.value in wanted) then 1 else 0
  {
    SelectCount(rows, HasNoParentIn(IdSet(rows)), j);
    ListedIsKey(rows, table, wanted, j);
    if j in wanted {
      var i :| 0 <= i < |rows| && rows[i] == Row(j, table[j]);
      if table[j].parent.Some? {
        ListedIsKey(rows, table, wanted, table[j].parent.value);
      }
    }
  }

  lemma TopsAreListed(links: Links, rows: seq<Row>, table: Rows, next: Id, wanted: set<Id>)
    requires Rooted(table, next) && Answers(rows, table, wanted) && LinkRows(links, rows)
    ensures Within(Ids(Tops(rows, IdSet(rows))), links, 1, next)
  {
    var tops := Ids(Tops(rows, IdSet(rows)));
    forall k | 0 <= k < |tops| ensures 1 <= tops[k] < next && tops[k] in links {
      CountsIfThere(tops, tops[k]);
      TopsOfAnswer(rows, table, wanted, tops[k]);
      ListedIsKey(rows, table, wanted, tops[k]);
    }
  }

  /** Whatever rows a query keeps, the walk from the rows without a listed parent meets each row once and
      nothing else. */
  lemma {:induction false} ForestMeetsEachRowOnce(
      links: Links, rows: seq<Row>, table: Rows, next: Id, wanted: set<Id>, j: Id)
    requires Rooted(table, next) && Answers(rows, table, wanted) && LinkRows(links, rows) && Downward(links, next)
    requires Within(Ids(Tops(rows, IdSet(rows))), links, 1, next)
    ensures Count(Walk(links, next, 1, Ids(Tops(rows, IdSet(rows)))), j) == if j in wanted then 1 else 0
    decreases j
  {
    var tops := Ids(Tops(rows, IdSet(rows)));
    if j in wanted {
      RowWalkCount(links, rows, table, next, wanted, tops, j);
      TopsOfAnswer(rows, table, wanted, j);
      if table[j].parent.Some? && table[j].parent.value in wanted {
        ForestMeetsEachRowOnce(links, rows, table, next, wanted, table[j].parent.value);
      }
    } else {
      NothingElseIsMet(links, rows, table, next, wanted, tops, j);
    }
  }

  /** Only the requested category has no parent among the rows of its subtree. */
  lemma SubtreeTop(rows: seq<Row>, table: Rows, next: Id, root: Id)
    requires Rooted(table, next) && root in table && Answers(rows, table, Subtree(table, root))
    ensures Ids(Tops(rows, IdSet(rows))) == [root]
  {
    var tops := Ids(Tops(rows, IdSet(rows)));
    forall j ensures Count(tops, j) == if j == root then 1 else 0 {
      TopsOfAnswer(rows, table, Subtree(table, root), j);
      if j in Subtree(table, root) {
        SubtreeClosed(table, next, root, j);
      }
    }
    OnlyOne(tops, root);
  }

  // The queries.

  /** id_path = :rootPath OR id_path LIKE :rootPrefix. */
  ghost function SubtreeQuery(table: Rows, root: Id): set<Id>
    requires root in table
  {
    set j | j in table && (table[j].idPath == table[root].idPath || Like(table[root].idPath + "/%", table[j].idPath))
  }

  lemma SubtreeQueryIsSubtree(table: Rows, next: Id, root: Id)
    requires Sound(table, next) && root in table
    ensures SubtreeQuery(table, root) == Subtree(table, root)
  {
    forall j | j in table ensures j in SubtreeQuery(table, root) <==> j in Subtree(table, root) {
      LikeFindsDescendants(table, next, root, j);
      if j != root {
        PathsAreUnique(table, next, j, root);
      }
    }
  }

  /** Active rows with no inactive category among the parts of their id path. */
  ghost function MenuQuery(table: Rows): set<Id> {
    set j | j in table && table[j].active && forall a :: a in table && Decimal(a) in Split(table[j].idPath) ==>
      table[a].active
  }

  ghost predicate Visible(table: Rows, j: Id)
    requires j in table
  {
    forall a :: a in Chain(table, j) && a in table ==> table[a].active
  }

  lemma {:induction false} PathPartsAreChain(table: Rows, next: Id, j: Id, a: Id)
    requires Rooted(table, next) && j in table
    ensures Decimal(a) in IdParts(table, j) <==> a in Chain(table, j)
    decreases j
  {
    if Decimal(a) == Decimal(j) {
      DecimalInjective(a, j);
    }
    if table[j].parent.Some? {
      PathPartsAreChain(table, next, table[j].parent.value, a);
    }
  }

  lemma MenuQueryIsVisible(table: Rows, next: Id, j: Id)
    requires Sound(table, next) && j in table
    ensures j in MenuQuery(table) <==> Visible(table, j)
  {
    PartsArePlain(table, j);
    SplitJoin(IdParts(table, j));
    forall a: Id ensures Decimal(a) in Split(table[j].idPath) <==> a in Chain(table, j) {
      PathPartsAreChain(table, next, j, a);
    }
    assert j in Chain(table, j);
  }

  /** A visible category's parent is visible, so the menu starts exactly at the parentless rows. */
  lemma MenuStartsAtRoots(rows: seq<Row>, table: Rows, next: Id, j: Id)
    requires Sound(table, next) && Answers(rows, table, MenuQuery(table))
    ensures j in Ids(Tops(rows, IdSet(rows))) <==> j in table && Visible(table, j) && table[j].parent == None
  {
    CountsIfThere(Ids(Tops(rows, IdSet(rows))), j);
    TopsOfAnswer(rows, table, MenuQuery(table), j);
    if j in table {
      MenuQueryIsVisible(table, next, j);
      if table[j].parent.Some? {
        MenuQueryIsVisible(table, next, table[j].parent.value);
      }
    }
  }

  // Linked nodes.

  class Node {
    const row: Row
    var children: seq<Node>

    constructor (row: Row)
      ensures this.row == row && children == []
    {
      this.row := row;
      children := [];
    }
  }

  function RowsOf(nodes: seq<Node>): (rows: seq<Row>)
    ensures |rows| == |nodes| && forall i :: 0 <= i < |nodes| ==> rows[i] == nodes[i].row
  {
    seq(|nodes|, i requires 0 <= i < |nodes| => nodes[i].row)
  }

  /** One node for each row, found under the row's id, with children among the nodes. */
  ghost predicate Indexed(nodes: map<Id, Node>, rows: seq<Row>)
    reads nodes.Values
  {
    && nodes.Keys == IdSet(rows)
    && (forall i :: 0 <= i < |rows| ==> rows[i].id in nodes && nodes[rows[i].id].row == rows[i])
    && (forall id, k :: id in nodes && 0 <= k < |nodes[id].children| ==> Known(nodes, nodes[id].children[k]))
  }

  ghost predicate Known(nodes: map<Id, Node>, node: Node) {
    node.row.id in nodes && nodes[node.row.id] == node
  }

  ghost function LinksOf(nodes: map<Id, Node>): Links
    reads nodes.Values
  {
    map id | id in nodes :: Ids(RowsOf(nodes[id].children))
  }

  function NodeSortsBefore(a: Node, b: Node): bool {
    SortsBefore(a.row, b.row)
  }

  lemma {:induction false} InsertRows(x: Node, nodes: seq<Node>)
    ensures RowsOf(Sorting.Insert<Node>(x, nodes, NodeSortsBefore)) ==
      Sorting.Insert<Row>(x.row, RowsOf(nodes), SortsBefore)
    ensures forall n :: n in Sorting.Insert<Node>(x, nodes, NodeSortsBefore) ==> n == x || n in nodes
  {
    if nodes == [] || !NodeSortsBefore(nodes[0], x) {
    } else {
      InsertRows(x, nodes[1..]);
      assert RowsOf(nodes[1..]) == RowsOf(nodes)[1..];
    }
  }

  /** Sorting the nodes sorts their rows. */
  lemma {:induction false} SortRows(nodes: seq<Node>)
    ensures RowsOf(Sorting.Sort<Node>(nodes, NodeSortsBefore)) == Sorting.Sort<Row>(RowsOf(nodes), SortsBefore)
    ensures forall n :: n in Sorting.Sort<Node>(nodes, NodeSortsBefore) ==> n in nodes
  {
    if nodes != [] {
      SortRows(nodes[1..]);
      InsertRows(nodes[0], Sorting.Sort<Node>(nodes[1..], NodeSortsBefore));
      assert RowsOf(nodes[1..]) == RowsOf(nodes)[1..];
    }
  }

  method MakeNodes(rows: seq<Row>) returns (nodes: map<Id, Node>)
    requires Distinct(rows)
    ensures Indexed(nodes, rows) && fresh(nodes.Values)
    ensures forall id :: id in nodes ==> nodes[id].children == []
  {
    nodes := map[];
    for i := 0 to |rows|
      invariant nodes.Keys == IdSet(rows[..i]) && forall id :: id in nodes ==> fresh(nodes[id])
      invariant forall k :: 0 <= k < i ==> rows[k].id in nodes && nodes[rows[k].id].row == rows[k]
      invariant forall id :: id in nodes ==> nodes[id].children == []
    {
      var node := new Node(rows[i]);
      nodes := nodes[rows[i].id := node];
      assert IdSet(rows[..i + 1]) == IdSet(rows[..i]) + {rows[i].id};
    }
    assert rows[..|rows|] == rows;
  }

  lemma SelectNext(rows: seq<Row>, i: nat, keep: Row -> bool)
    requires i < |rows|
    ensures Select(rows[..i + 1], keep) == Select(rows[..i], keep) + if keep(rows[i]) then [rows[i]] else []
  {
    assert rows[..i + 1][..i] == rows[..i];
  }

  lemma RowsSnoc(nodes: seq<Node>, node: Node)
    ensures RowsOf(nodes + [node]) == RowsOf(nodes) + [node.row]
  {
  }

  /** The first i rows are linked: below their parents, or among the roots. */
  ghost predicate Linked(nodes: map<Id, Node>, rows: seq<Row>, i: nat, roots: seq<Node>)
    requires i <= |rows|
    reads nodes.Values
  {
    && (forall id :: id in nodes ==> RowsOf(nodes[id].children) == Kids(rows[..i], id))
    && RowsOf(roots) == Tops(rows[..i], IdSet(rows))
    && forall k :: 0 <= k < |roots| ==> Known(nodes, roots[k])
  }

  /** Push each node onto its parent's children or onto the roots. */
  method LinkNodes(nodes: map<Id, Node>, rows: seq<Row>) returns (roots: seq<Node>)
    requires Distinct(rows) && Indexed(nodes, rows) && forall id :: id in nodes ==> nodes[id].children == []
    modifies nodes.Values
    ensures Indexed(nodes, rows) && Linked(nodes, rows, |rows|, roots)
  {
    roots := [];
    for i := 0 to |rows|
      invariant Indexed(nodes, rows) && Linked(nodes, rows, i, roots)
    {
      var parent := rows[i].category.parent;
      if parent.Some? && parent.value in nodes {
        LinkChild(nodes, rows, i, roots, parent.value);
      } else {
        LinkedRoot(nodes, rows, i, roots);
        roots := roots + [nodes[rows[i].id]];
      }
    }
  }

  lemma LinkedRoot(nodes: map<Id, Node>, rows: seq<Row>, i: nat, roots: seq<Node>)
    requires i < |rows| && Indexed(nodes, rows) && Linked(nodes, rows, i, roots)
    requires rows[i].category.parent.None? || rows[i].category.parent.value !in nodes
    ensures Linked(nodes, rows, i + 1, roots + [nodes[rows[i].id]])
  {
    RowsSnoc(roots, nodes[rows[i].id]);
    SelectNext(rows, i, HasNoParentIn(IdSet(rows)));
    forall id | id in nodes ensures Kids(rows[..i + 1], id) == Kids(rows[..i], id) {
      SelectNext(rows, i, HasParent(id));
    }
  }

  method LinkChild(nodes: map<Id, Node>, rows: seq<Row>, i: nat, ghost roots: seq<Node>, parent: Id)
    requires i < |rows| && Indexed(nodes, rows) && Linked(nodes, rows, i, roots)
    requires rows[i].category.parent == Some(parent) && parent in nodes
    modifies nodes[parent]
    ensures Indexed(nodes, rows) && Linked(nodes, rows, i + 1, roots)
  {
    AddChild(nodes, rows, parent, nodes[rows[i].id]);
    SelectNext(rows, i, HasNoParentIn(IdSet(rows)));
    forall id | id in nodes ensures RowsOf(nodes[id].children) == Kids(rows[..i + 1], id) {
      SelectNext(rows, i, HasParent(id));
    }
  }

  method AddChild(nodes: map<Id, Node>, rows: seq<Row>, id: Id, node: Node)
    requires Indexed(nodes, rows) && id in nodes && Known(nodes, node)
    modifies nodes[id]
    ensures Indexed(nodes, rows)
    ensures RowsOf(nodes[id].children) == old(RowsOf(nodes[id].children)) + [node.row]
    ensures forall other :: other in nodes && other != id ==> nodes[other].children == old(nodes[other].children)
  {
    NodesDiffer(nodes, rows);
    RowsSnoc(nodes[id].children, node);
    nodes[id].children := nodes[id].children + [node];
  }

  lemma NodesDiffer(nodes: map<Id, Node>, rows: seq<Row>)
    requires Indexed(nodes, rows)
    ensures forall id :: id in nodes ==> nodes[id].row.id == id
    ensures forall a, b :: a in nodes && b in nodes && a != b ==> nodes[a] != nodes[b]
  {
  }

  method SortChildren(nodes: map<Id, Node>, rows: seq<Row>, id: Id)
    requires Indexed(nodes, rows) && id in nodes
    modifies nodes[id]
    ensures Indexed(nodes, rows)
    ensures RowsOf(nodes[id].children) == Sorting.Sort<Row>(old(RowsOf(nodes[id].children)), SortsBefore)
    ensures forall other :: other in nodes && other != id ==> nodes[other].children == old(nodes[other].children)
  {
    NodesDiffer(nodes, rows);
    SortRows(nodes[id].children);
    var sorted := Sorting.Sort<Node>(nodes[id].children, NodeSortsBefore);
    forall k | 0 <= k < |sorted| ensures Known(nodes, sorted[k]) {
      assert sorted[k] in nodes[id].children;
    }
    nodes[id].children := sorted;
  }

  lemma LinkedAsRows(nodes: map<Id, Node>, rows: seq<Row>, sorted: bool)
    requires Indexed(nodes, rows)
    requires forall id :: id in nodes ==>
      RowsOf(nodes[id].children) == if sorted then SortedKids(rows, id) else Kids(rows, id)
    ensures LinkRows(LinksOf(nodes), rows)
  {
    forall id, j | id in nodes ensures Count(LinksOf(nodes)[id], j) == Count(Ids(Kids(rows, id)), j) {
      SortIds(Kids(rows, id), j);
    }
  }

  method MapMegaMenu(rows: seq<Row>) returns (roots: seq<Node>, nodes: map<Id, Node>)
    requires Distinct(rows)
    ensures Indexed(nodes, rows) && fresh(nodes.Values) && LinkRows(LinksOf(nodes), rows)
    ensures RowsOf(roots) == Tops(rows, IdSet(rows)) && forall k :: 0 <= k < |roots| ==> Known(nodes, roots[k])
  {
    nodes := MakeNodes(rows);
    roots := LinkNodes(nodes, rows);
    assert rows[..|rows|] == rows;
    LinkedAsRows(nodes, rows, false);
  }

  /** The children of the first i rows' nodes are sorted. */
  ghost predicate SortedUpTo(nodes: map<Id, Node>, rows: seq<Row>, i: nat)
    requires i <= |rows| && Indexed(nodes, rows)
    reads nodes.Values
  {
    && (forall k :: 0 <= k < i ==> RowsOf(nodes[rows[k].id].children) == SortedKids(rows, rows[k].id))
    && (forall k :: i <= k < |rows| ==> RowsOf(nodes[rows[k].id].children) == Kids(rows, rows[k].id))
  }

  method SortNext(nodes: map<Id, Node>, rows: seq<Row>, i: nat)
    requires i < |rows| && Distinct(rows) && Indexed(nodes, rows) && SortedUpTo(nodes, rows, i)
    modifies nodes[rows[i].id]
    ensures Indexed(nodes, rows) && SortedUpTo(nodes, rows, i + 1)
  {
    ghost var at := rows[i].id;
    SortChildren(nodes, rows, rows[i].id);
    forall k | 0 <= k < |rows| && k != i ensures nodes[rows[k].id].children == old(nodes[rows[k].id].children) {
      assert rows[k].id != at;
    }
    assert RowsOf(nodes[at].children) == SortedKids(rows, at);
  }

  /** The first root, with the children of every node sorted. */
  method MapCategoryParentTree(rows: seq<Row>) returns (root: Option<Node>, nodes: map<Id, Node>)
    requires Distinct(rows)
    ensures Indexed(nodes, rows) && fresh(nodes.Values) && SortedUpTo(nodes, rows, |rows|)
    ensures match root
      case None => Tops(rows, IdSet(rows)) == []
      case Some(node) => Tops(rows, IdSet(rows)) != [] && node.row == Tops(rows, IdSet(rows))[0] && Known(nodes, node)
  {
    nodes := MakeNodes(rows);
    var roots := LinkNodes(nodes, rows);
    assert rows[..|rows|] == rows;
    for i := 0 to |rows|
      invariant Indexed(nodes, rows) && SortedUpTo(nodes, rows, i)
    {
      SortNext(nodes, rows, i);
    }
    root := if roots == [] then None else Some(roots[0]);
  }

  /** The read of one subtree: the node of the requested category, from which the walk over the children
      meets that category and its descendants once each and nothing else; every node's children are the
      rows with that parent, sorted.  The order of the query's answer does not matter. */
  method GetParentTree(
      table: Rows, ghost next: Id, root: Id, rows: seq<Row>) returns (r: Result<Node, Error>, nodes: map<Id, Node>)
    requires Sound(table, next)
    requires root in table ==> Answers(rows, table, SubtreeQuery(table, root))
    ensures root !in table ==> r == Err(NotFound)
    ensures root in table ==>
      && r.Ok? && r.value.row == Row(root, table[root]) && Known(nodes, r.value)
      && Indexed(nodes, rows) && IsSubtree(LinksOf(nodes), table, next, root)
      && (forall id :: id in nodes ==> InPositionOrder(RowsOf(nodes[id].children)))
  {
    if root !in table {
      return Err(NotFound), map[];
    }
    var node;
    node, nodes := MapCategoryParentTree(rows);
    SubtreeQueryIsSubtree(table, next, root);
    AllSorted(nodes, rows);
    LinksMakeSubtree(LinksOf(nodes), rows, table, next, root);
    assert Ids(Tops(rows, IdSet(rows))) == [root];
    r := match node case Some(n) => Ok(n) case None => Err(NotFound);
  }

  lemma ChildrenAreKids(links: Links, rows: seq<Row>, table: Rows, wanted: set<Id>, id: Id, j: Id)
    requires Answers(rows, table, wanted) && LinkRows(links, rows) && id in links
    ensures j in links[id] <==> j in links && j in table && table[j].parent == Some(id)
  {
    CountsIfThere(links[id], j);
    assert Count(links[id], j) == Count(Ids(Kids(rows, id)), j);
    SelectCount(rows, HasParent(id), j);
    ListedIsKey(rows, table, wanted, j);
    if Has(rows, j, HasParent(id)) {
      var i :| 0 <= i < |rows| && rows[i].id == j && HasParent(id)(rows[i]);
    } else if j in wanted {
      var i :| 0 <= i < |rows| && rows[i] == Row(j, table[j]);
      assert !HasParent(id)(rows[i]);
    }
  }

  /** Sort orders never fall from one row to the next. */
  ghost predicate InPositionOrder(rows: seq<Row>) {
    forall i, j :: 0 <= i < j < |rows| ==> rows[i].category.sortOrder <= rows[j].category.sortOrder
  }

  lemma AllSorted(nodes: map<Id, Node>, rows: seq<Row>)
    requires Indexed(nodes, rows) && SortedUpTo(nodes, rows, |rows|)
    ensures LinkRows(LinksOf(nodes), rows)
    ensures forall id :: id in nodes ==> InPositionOrder(RowsOf(nodes[id].children))
  {
    forall id | id in nodes ensures RowsOf(nodes[id].children) == SortedKids(rows, id) {
      assert id in IdSet(rows);
    }
    LinkedAsRows(nodes, rows, true);
    forall id | id in nodes ensures InPositionOrder(RowsOf(nodes[id].children)) {
      Sorting.SortSorts(Kids(rows, id), SortsBefore);
    }
  }

  /** Walking links from root meets each category of the subtree once and nothing else, and the links are
      the parent ids. */
  ghost predicate IsSubtree(links: Links, table: Rows, next: Id, root: Id) {
    && links.Keys == Subtree(table, root)
    && Downward(links, next) && Within([root], links, 1, next)
    && (forall j :: Count(Walk(links, next, 1, [root]), j) == if j in Subtree(table, root) then 1 else 0)
    && (forall id, j :: id in links ==> (j in links[id] <==> j in links && j in table && table[j].parent == Some(id)))
  }

  lemma LinksMakeSubtree(links: Links, rows: seq<Row>, table: Rows, next: Id, root: Id)
    requires Sound(table, next) && root in table && Answers(rows, table, Subtree(table, root)) && LinkRows(links, rows)
    ensures Ids(Tops(rows, IdSet(rows))) == [root] && IsSubtree(links, table, next, root)
  {
    var wanted := Subtree(table, root);
    LinksRunDown(links, rows, table, next, wanted);
    SubtreeTop(rows, table, next, root);
    TopsAreListed(links, rows, table, next, wanted);
    forall j ensures j in links <==> j in wanted {
      ListedIsKey(rows, table, wanted, j);
    }
    forall j ensures Count(Walk(links, next, 1, [root]), j) == if j in wanted then 1 else 0 {
      ForestMeetsEachRowOnce(links, rows, table, next, wanted, j);
    }
    forall id, j | id in links ensures j in links[id] <==> j in links && j in table && table[j].parent == Some(id) {
      ChildrenAreKids(links, rows, table, wanted, id, j);
    }
  }

  /** The menu: the roots are exactly the visible parentless categories, and the walk from them meets every
      visible category once and nothing else. */
  method GetMegaMenu(table: Rows, ghost next: Id, rows: seq<Row>) returns (roots: seq<Node>, nodes: map<Id, Node>)
    requires Sound(table, next) && Answers(rows, table, MenuQuery(table))
    ensures Indexed(nodes, rows) && forall k :: 0 <= k < |roots| ==> Known(nodes, roots[k])
    ensures forall j :: j in Ids(RowsOf(roots)) <==> j in table && Visible(table, j) && table[j].parent == None
    ensures Downward(LinksOf(nodes), next) && Within(Ids(RowsOf(roots)), LinksOf(nodes), 1, next)
    ensures forall j ::
      Count(Walk(LinksOf(nodes), next, 1, Ids(RowsOf(roots))), j) == if j in table && Visible(table, j) then 1 else 0
  {
    roots, nodes := MapMegaMenu(rows);
    ghost var links := LinksOf(nodes);
    LinksRunDown(links, rows, table, next, MenuQuery(table));
    TopsAreListed(links, rows, table, next, MenuQuery(table));
    forall j ensures j in Ids(RowsOf(roots)) <==> j in table && Visible(table, j) && table[j].parent == None {
      MenuStartsAtRoots(rows, table, next, j);
    }
    forall j
      ensures Count(Walk(links, next, 1, Ids(RowsOf(roots))), j) == if j in table && Visible(table, j) then 1 else 0
    {
      ForestMeetsEachRowOnce(links, rows, table, next, MenuQuery(table), j);
      if j in table {
        MenuQueryIsVisible(table, next, j);
      }
    }
  }
}
