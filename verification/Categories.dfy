/** Categories with materialised id and slug paths: create, rename and remove as the repository does
    them, and the invariant that both paths spell the chain of ancestors. */
module Categories {
  import opened Wrappers
  import opened Paths

  /** Serial keys start at one. */
  type Id = i: int | 0 < i witness 1

  datatype Error = NotFound | BadRequest | UniqueViolation | ForeignKeyViolation

  datatype Category = Category(
    parent: Option<Id>,
    name: string,
    slug: string,
    sortOrder: int,
    active: bool,
    idPath: string,
    slugPath: string)

  type Rows = map<Id, Category>

  const MAX_DEPTH: nat := 3

  /** The characters slugify leaves in strict mode.  The slug may be empty. */
  ghost predicate SlugChars(s: string) {
    forall i :: 0 <= i < |s| ==> 'a' <= s[i] <= 'z' || '0' <= s[i] <= '9' || s[i] == '-'
  }

  lemma SlugIsPlain(s: string)
    requires SlugChars(s)
    ensures Plain(s) && Literal(s)
  {
  }

  // Ancestors.

  /** The ancestors of a category from the root down to itself. */
  function Chain(rows: Rows, id: Id): (chain: seq<Id>)
    requires id in rows
    ensures chain != [] && chain[|chain| - 1] == id
    decreases id
  {
    match rows[id].parent
    case Some(p) => if p in rows && p < id then Chain(rows, p) + [id] else [id]
    case None => [id]
  }

  function IdParts(rows: Rows, id: Id): (parts: seq<string>)
    requires id in rows
    ensures |parts| == |Chain(rows, id)|
    decreases id
  {
    match rows[id].parent
    case Some(p) => if p in rows && p < id then IdParts(rows, p) + [Decimal(id)] else [Decimal(id)]
    case None => [Decimal(id)]
  }

  function SlugParts(rows: Rows, id: Id): (parts: seq<string>)
    requires id in rows
    ensures |parts| == |Chain(rows, id)| && parts[|parts| - 1] == rows[id].slug
    decreases id
  {
    match rows[id].parent
    case Some(p) => if p in rows && p < id then SlugParts(rows, p) + [rows[id].slug] else [rows[id].slug]
    case None => [rows[id].slug]
  }

  /** Parents exist and were created before their children. */
  ghost predicate Rooted(rows: Rows, next: Id) {
    forall id :: id in rows ==>
      id < next && (rows[id].parent.Some? ==> rows[id].parent.value in rows && rows[id].parent.value < id)
  }

  ghost predicate SlugsOk(rows: Rows) {
    && (forall id :: id in rows ==> SlugChars(rows[id].slug))
    && (forall i, j :: i in rows && j in rows && i != j && rows[i].parent == rows[j].parent ==>
      rows[i].slug != rows[j].slug)
  }

  /** Both cached paths are the joins of the ancestor chain's ids and slugs. */
  ghost predicate PathsOk(rows: Rows) {
    forall id :: id in rows ==>
      && rows[id].idPath == Join(IdParts(rows, id))
      && rows[id].slugPath == Join(SlugParts(rows, id))
  }

  ghost predicate DepthOk(rows: Rows) {
    forall id :: id in rows ==> |Chain(rows, id)| <= MAX_DEPTH
  }

  ghost predicate Sound(rows: Rows, next: Id) {
    Rooted(rows, next) && SlugsOk(rows) && PathsOk(rows) && DepthOk(rows)
  }

  /** j is a strict descendant of id. */
  ghost predicate Below(rows: Rows, id: Id, j: Id)
    requires j in rows
  {
    j != id && id in Chain(rows, j)
  }

  /** Every element of a chain has the chain up to itself, and the parts up to itself. */
  lemma {:induction false} ChainPrefix(rows: Rows, next: Id, id: Id, i: nat)
    requires Rooted(rows, next) && id in rows && i < |Chain(rows, id)|
    ensures var a := Chain(rows, id)[i];
      && a in rows && a <= id && (a == id <==> i == |Chain(rows, id)| - 1)
      && Chain(rows, a) == Chain(rows, id)[..i + 1]
      && SlugParts(rows, a) == SlugParts(rows, id)[..i + 1]
      && IdParts(rows, a) == IdParts(rows, id)[..i + 1]
    decreases id
  {
    var n := |Chain(rows, id)| - 1;
    if i == n {
      assert Chain(rows, id)[..n + 1] == Chain(rows, id);
      assert SlugParts(rows, id)[..n + 1] == SlugParts(rows, id);
      assert IdParts(rows, id)[..n + 1] == IdParts(rows, id);
    } else {
      var p := rows[id].parent.value;
      ChainPrefix(rows, next, p, i);
      assert Chain(rows, id)[..i + 1] == Chain(rows, p)[..i + 1];
      assert SlugParts(rows, id)[..i + 1] == SlugParts(rows, p)[..i + 1];
      assert IdParts(rows, id)[..i + 1] == IdParts(rows, p)[..i + 1];
    }
  }

  lemma {:induction false} PartsArePlain(rows: Rows, id: Id)
    requires id in rows && forall i :: i in rows ==> SlugChars(rows[i].slug)
    ensures AllPlain(SlugParts(rows, id)) && AllPlain(IdParts(rows, id))
    decreases id
  {
    SlugIsPlain(rows[id].slug);
    DecimalIsDigits(id);
    match rows[id].parent
    case Some(p) =>
      if p in rows && p < id {
        PartsArePlain(rows, p);
      }
    case None =>
  }

  /** The chain of slugs determines the category. */
  lemma {:induction false} SlugPartsInjective(rows: Rows, next: Id, i: Id, j: Id)
    requires Rooted(rows, next) && SlugsOk(rows) && i in rows && j in rows
    requires SlugParts(rows, i) == SlugParts(rows, j)
    ensures i == j
    decreases i
  {
    var parts := SlugParts(rows, i);
    var n := |parts| - 1;
    if rows[i].parent.Some? && rows[j].parent.Some? {
      var p, q := rows[i].parent.value, rows[j].parent.value;
      assert SlugParts(rows, p) == parts[..n] == SlugParts(rows, q);
      SlugPartsInjective(rows, next, p, q);
    }
  }

  lemma {:induction false} IdPartsInjective(rows: Rows, next: Id, i: Id, j: Id)
    requires Rooted(rows, next) && i in rows && j in rows && IdParts(rows, i) == IdParts(rows, j)
    ensures i == j
  {
    var n := |IdParts(rows, i)| - 1;
    assert IdParts(rows, i)[n] == Decimal(i) && IdParts(rows, j)[n] == Decimal(j);
    DecimalInjective(i, j);
  }

  lemma DescentGivesPrefix(rows: Rows, next: Id, id: Id, j: Id)
    requires Rooted(rows, next) && id in rows && j in rows && Below(rows, id, j)
    ensures SlugParts(rows, id) < SlugParts(rows, j) && IdParts(rows, id) < IdParts(rows, j)
  {
    var chain := Chain(rows, j);
    var i :| 0 <= i < |chain| && chain[i] == id;
    ChainPrefix(rows, next, j, i);
  }

  lemma SlugPrefixGivesDescent(rows: Rows, next: Id, id: Id, j: Id)
    requires Rooted(rows, next) && SlugsOk(rows) && id in rows && j in rows
    requires SlugParts(rows, id) < SlugParts(rows, j)
    ensures Below(rows, id, j)
  {
    var k := |Chain(rows, id)|;
    ChainPrefix(rows, next, j, k - 1);
    SlugPartsInjective(rows, next, Chain(rows, j)[k - 1], id);
  }

  lemma IdPrefixGivesDescent(rows: Rows, next: Id, id: Id, j: Id)
    requires Rooted(rows, next) && id in rows && j in rows
    requires IdParts(rows, id) < IdParts(rows, j)
    ensures Below(rows, id, j)
  {
    var k := |Chain(rows, id)|;
    ChainPrefix(rows, next, j, k - 1);
    IdPartsInjective(rows, next, Chain(rows, j)[k - 1], id);
  }

  /** The path of id followed by a slash starts the path of j exactly when j is below id. */
  lemma PathsShowDescent(rows: Rows, next: Id, id: Id, j: Id)
    requires Sound(rows, next) && id in rows && j in rows
    ensures rows[id].slugPath + "/" <= rows[j].slugPath <==> Below(rows, id, j)
    ensures rows[id].idPath + "/" <= rows[j].idPath <==> Below(rows, id, j)
  {
    PartsArePlain(rows, id);
    PartsArePlain(rows, j);
    BelowIffPrefix(SlugParts(rows, id), SlugParts(rows, j));
    BelowIffPrefix(IdParts(rows, id), IdParts(rows, j));
    if Below(rows, id, j) {
      DescentGivesPrefix(rows, next, id, j);
    } else if SlugParts(rows, id) < SlugParts(rows, j) {
      SlugPrefixGivesDescent(rows, next, id, j);
    } else if IdParts(rows, id) < IdParts(rows, j) {
      IdPrefixGivesDescent(rows, next, id, j);
    }
  }

  /** No two categories have the same slug path or id path. */
  lemma PathsAreUnique(rows: Rows, next: Id, i: Id, j: Id)
    requires Sound(rows, next) && i in rows && j in rows && i != j
    ensures rows[i].slugPath != rows[j].slugPath && rows[i].idPath != rows[j].idPath
  {
    PartsArePlain(rows, i);
    PartsArePlain(rows, j);
    if rows[i].slugPath == rows[j].slugPath {
      JoinInjective(SlugParts(rows, i), SlugParts(rows, j));
      SlugPartsInjective(rows, next, i, j);
    }
    if rows[i].idPath == rows[j].idPath {
      JoinInjective(IdParts(rows, i), IdParts(rows, j));
      IdPartsInjective(rows, next, i, j);
    }
  }

  lemma PathIsLiteral(rows: Rows, next: Id, id: Id)
    requires Rooted(rows, next) && SlugsOk(rows) && id in rows
    ensures Literal(Join(SlugParts(rows, id))) && Literal(Join(IdParts(rows, id)))
    decreases id
  {
    SlugIsPlain(rows[id].slug);
    DecimalIsDigits(id);
    if rows[id].parent.Some? {
      var p := rows[id].parent.value;
      PathIsLiteral(rows, next, p);
      JoinSnoc(SlugParts(rows, p), rows[id].slug);
      JoinSnoc(IdParts(rows, p), Decimal(id));
    }
  }

  /** The rows matched by LIKE path || '/%' are the strict descendants. */
  lemma LikeFindsDescendants(rows: Rows, next: Id, id: Id, j: Id)
    requires Sound(rows, next) && id in rows && j in rows
    ensures Like(rows[id].slugPath + "/%", rows[j].slugPath) <==> Below(rows, id, j)
    ensures Like(rows[id].idPath + "/%", rows[j].idPath) <==> Below(rows, id, j)
  {
    PathIsLiteral(rows, next, id);
    assert rows[id].slugPath + "/%" == (rows[id].slugPath + "/") + "%";
    assert rows[id].idPath + "/%" == (rows[id].idPath + "/") + "%";
    LikeLiteralPrefix(rows[id].slugPath + "/", rows[j].slugPath);
    LikeLiteralPrefix(rows[id].idPath + "/", rows[j].idPath);
    PathsShowDescent(rows, next, id, j);
  }

  // Rename.

  function NewSlugPath(rows: Rows, id: Id, slug: string): string
    requires id in rows
  {
    match rows[id].parent
    case None => slug
    case Some(p) => (if p in rows then rows[p].slugPath else "null") + "/" + slug
  }

  /** The rows after a rename: the row itself, and by string prefix every row its old path matches. */
  function Renamed(rows: Rows, id: Id, name: string, slug: string, active: bool): Rows
    requires id in rows
  {
    var before, after := rows[id].slugPath, NewSlugPath(rows, id, slug);
    map j | j in rows ::
      if j == id then rows[j].(name := name, slug := slug, active := active, slugPath := after)
      else if Like(before + "/%", rows[j].slugPath)
        then rows[j].(slugPath := ReplacePrefix(rows[j].slugPath, before, after))
      else rows[j]
  }

  /** The row alone changed, cached paths untouched. */
  function Relabelled(rows: Rows, id: Id, name: string, slug: string, active: bool): Rows
    requires id in rows
  {
    rows[id := rows[id].(name := name, slug := slug, active := active)]
  }

  /** Both cached paths of every row computed afresh from the parents. */
  function Recomputed(rows: Rows): Rows {
    map j | j in rows :: rows[j].(idPath := Join(IdParts(rows, j)), slugPath := Join(SlugParts(rows, j)))
  }

  ghost predicate SameParents(a: Rows, b: Rows) {
    a.Keys == b.Keys && forall j :: j in a ==> a[j].parent == b[j].parent
  }

  lemma {:induction false} SameParentsSameChain(a: Rows, b: Rows, j: Id)
    requires SameParents(a, b) && j in a
    ensures Chain(a, j) == Chain(b, j) && IdParts(a, j) == IdParts(b, j)
    decreases j
  {
    if a[j].parent.Some? {
      var p := a[j].parent.value;
      if p in a && p < j {
        SameParentsSameChain(a, b, p);
      }
    }
  }

  lemma {:induction false} SameSlugsSameParts(a: Rows, b: Rows, j: Id)
    requires SameParents(a, b) && j in a && forall i :: i in a ==> a[i].slug == b[i].slug
    ensures SlugParts(a, j) == SlugParts(b, j)
    decreases j
  {
    if a[j].parent.Some? {
      var p := a[j].parent.value;
      if p in a && p < j {
        SameSlugsSameParts(a, b, p);
      }
    }
  }

  lemma SnocTail(head: seq<string>, parts: seq<string>, k: nat, last: string)
    requires k <= |parts|
    ensures head + (parts + [last])[k..] == head + parts[k..] + [last]
  {
  }

  /** Changing the slug of id changes one component of the chains through id and nothing else. */
  lemma {:induction false} PartsAfterRename(a: Rows, b: Rows, next: Id, id: Id, j: Id)
    requires Rooted(a, next) && SameParents(a, b) && id in a && j in a
    requires forall i :: i in a && i != id ==> a[i].slug == b[i].slug
    ensures id !in Chain(a, j) ==> SlugParts(b, j) == SlugParts(a, j)
    ensures id in Chain(a, j) ==>
              SlugParts(a, id) <= SlugParts(a, j)
                && SlugParts(b, j) == SlugParts(b, id) + SlugParts(a, j)[|SlugParts(a, id)|..]
    decreases j
  {
    if j == id {
      assert SlugParts(a, j)[|SlugParts(a, id)|..] == [];
    } else if a[j].parent.Some? {
      var p := a[j].parent.value;
      PartsAfterRename(a, b, next, id, p);
      assert SlugParts(b, j) == SlugParts(b, p) + [a[j].slug];
      if id in Chain(a, p) {
        SnocTail(SlugParts(b, id), SlugParts(a, p), |SlugParts(a, id)|, a[j].slug);
      }
    }
  }

  lemma NotAboveParent(rows: Rows, next: Id, id: Id)
    requires Rooted(rows, next) && id in rows && rows[id].parent.Some?
    ensures id !in Chain(rows, rows[id].parent.value)
  {
    var p := rows[id].parent.value;
    forall i | 0 <= i < |Chain(rows, p)| ensures Chain(rows, p)[i] != id {
      ChainPrefix(rows, next, p, i);
    }
  }

  lemma RenamedSelf(rows: Rows, next: Id, id: Id, name: string, slug: string, active: bool)
    requires Sound(rows, next) && id in rows
    ensures NewSlugPath(rows, id, slug) == Join(SlugParts(Relabelled(rows, id, name, slug, active), id))
  {
    var after := Relabelled(rows, id, name, slug, active);
    if rows[id].parent.Some? {
      var p := rows[id].parent.value;
      NotAboveParent(rows, next, id);
      PartsAfterRename(rows, after, next, id, p);
      assert SlugParts(after, id) == SlugParts(rows, p) + [slug];
      JoinSnoc(SlugParts(rows, p), slug);
    }
  }

  lemma PrefixSwap(x: string, x': string, tail: string)
    ensures ReplacePrefix(x + tail, x, x') == x' + tail
  {
    assert (x + tail)[|x|..] == tail;
  }

  lemma Associate(x: string, y: string, z: string)
    ensures x + y + z == x + (y + z)
  {
  }

  lemma JoinHeadTail(head: seq<string>, rest: seq<string>, tail: string)
    requires head != [] && rest != [] && tail == "/" + Join(rest)
    ensures Join(head + rest) == Join(head) + tail
  {
    JoinConcat(head, rest);
    Associate(Join(head), "/", Join(rest));
  }

  /** Rewriting the path of a descendant exchanges the components of the renamed category. */
  lemma RewriteHead(head: seq<string>, head': seq<string>, rest: seq<string>)
    requires head != [] && head' != [] && rest != []
    ensures ReplacePrefix(Join(head + rest), Join(head), Join(head')) == Join(head' + rest)
  {
    var tail := "/" + Join(rest);
    JoinHeadTail(head, rest, tail);
    JoinHeadTail(head', rest, tail);
    PrefixSwap(Join(head), Join(head'), tail);
  }

  lemma RewriteParts(head: seq<string>, head': seq<string>, whole: seq<string>, whole': seq<string>)
    requires head != [] && head' != [] && head < whole && whole' == head' + whole[|head|..]
    ensures ReplacePrefix(Join(whole), Join(head), Join(head')) == Join(whole')
  {
    assert whole == head + whole[|head|..];
    RewriteHead(head, head', whole[|head|..]);
  }

  lemma RenamedDescendant(rows: Rows, after: Rows, next: Id, id: Id, j: Id)
    requires Rooted(rows, next) && SameParents(rows, after) && id in rows && j in rows && Below(rows, id, j)
    requires forall i :: i in rows && i != id ==> rows[i].slug == after[i].slug
    ensures ReplacePrefix(Join(SlugParts(rows, j)), Join(SlugParts(rows, id)), Join(SlugParts(after, id))) ==
      Join(SlugParts(after, j))
  {
    DescentGivesPrefix(rows, next, id, j);
    PartsAfterRename(rows, after, next, id, j);
    RewriteParts(SlugParts(rows, id), SlugParts(after, id), SlugParts(rows, j), SlugParts(after, j));
  }

  lemma RenamedOutside(rows: Rows, after: Rows, next: Id, id: Id, j: Id)
    requires Rooted(rows, next) && SameParents(rows, after) && id in rows && j in rows && id !in Chain(rows, j)
    requires forall i :: i in rows && i != id ==> rows[i].slug == after[i].slug
    ensures Join(SlugParts(after, j)) == Join(SlugParts(rows, j))
  {
    PartsAfterRename(rows, after, next, id, j);
  }

  lemma RenamedOther(rows: Rows, next: Id, id: Id, name: string, slug: string, active: bool, j: Id)
    requires Rooted(rows, next) && PathsOk(rows) && id in rows && j in rows && j != id
    ensures var after := Relabelled(rows, id, name, slug, active);
      Join(SlugParts(after, j)) ==
        if Below(rows, id, j) then ReplacePrefix(rows[j].slugPath, rows[id].slugPath, Join(SlugParts(after, id)))
          else rows[j].slugPath
  {
    var after := Relabelled(rows, id, name, slug, active);
    assert rows[j].slugPath == Join(SlugParts(rows, j)) && rows[id].slugPath == Join(SlugParts(rows, id));
    if Below(rows, id, j) {
      RenamedDescendant(rows, after, next, id, j);
    } else {
      RenamedOutside(rows, after, next, id, j);
    }
  }

  /** Every row after the rename is the relabelled row with its slug path recomputed. */
  lemma RenamedRow(rows: Rows, next: Id, id: Id, name: string, slug: string, active: bool, j: Id)
    requires Sound(rows, next) && id in rows && j in rows
    ensures var after := Relabelled(rows, id, name, slug, active);
      Renamed(rows, id, name, slug, active)[j] == after[j].(slugPath := Join(SlugParts(after, j)))
  {
    RenamedSelf(rows, next, id, name, slug, active);
    if j != id {
      LikeFindsDescendants(rows, next, id, j);
      RenamedOther(rows, next, id, name, slug, active, j);
    }
  }

  lemma IdPathStays(rows: Rows, next: Id, id: Id, name: string, slug: string, active: bool, j: Id)
    requires Sound(rows, next) && id in rows && j in rows
    ensures var after := Relabelled(rows, id, name, slug, active); after[j].idPath == Join(IdParts(after, j))
  {
    SameParentsSameChain(rows, Relabelled(rows, id, name, slug, active), j);
  }

  /** The prefix rewrite of the subtree is the same as recomputing every path from the parents. */
  lemma RenameIsRecompute(rows: Rows, next: Id, id: Id, name: string, slug: string, active: bool)
    requires Sound(rows, next) && id in rows
    ensures Renamed(rows, id, name, slug, active) == Recomputed(Relabelled(rows, id, name, slug, active))
  {
    var renamed, recomputed := Renamed(rows, id, name, slug, active),
      Recomputed(Relabelled(rows, id, name, slug, active));
    assert renamed.Keys == recomputed.Keys;
    forall j | j in renamed ensures renamed[j] == recomputed[j] {
      IdPathStays(rows, next, id, name, slug, active, j);
      RenamedRow(rows, next, id, name, slug, active, j);
    }
  }

  lemma RenameChangesParts(rows: Rows, next: Id, id: Id, name: string, slug: string, active: bool, j: Id)
    requires Rooted(rows, next) && id in rows && j in rows && slug != rows[id].slug && id in Chain(rows, j)
    ensures SlugParts(Relabelled(rows, id, name, slug, active), j) != SlugParts(rows, j)
  {
    var after := Relabelled(rows, id, name, slug, active);
    var k := |SlugParts(rows, id)|;
    SameParentsSameChain(rows, after, id);
    PartsAfterRename(rows, after, next, id, j);
    assert SlugParts(after, j)[k - 1] == SlugParts(after, id)[k - 1] == slug;
    assert SlugParts(rows, j)[k - 1] == SlugParts(rows, id)[k - 1] == rows[id].slug;
  }

  lemma ChangedPathDiffers(rows: Rows, next: Id, id: Id, name: string, slug: string, active: bool, j: Id)
    requires Rooted(rows, next) && SlugsOk(rows) && id in rows && j in rows && slug != rows[id].slug && SlugChars(slug)
    requires id in Chain(rows, j)
    ensures Join(SlugParts(Relabelled(rows, id, name, slug, active), j)) != Join(SlugParts(rows, j))
  {
    var after := Relabelled(rows, id, name, slug, active);
    RenameChangesParts(rows, next, id, name, slug, active, j);
    PartsArePlain(rows, j);
    PartsArePlain(after, j);
    if Join(SlugParts(after, j)) == Join(SlugParts(rows, j)) {
      JoinInjective(SlugParts(after, j), SlugParts(rows, j));
    }
  }

  /** The rewrite changes the slug paths of the row and its descendants and no other row. */
  lemma RenameTouchesExactlyTheSubtree(rows: Rows, next: Id, id: Id, name: string, slug: string, active: bool, j: Id)
    requires Sound(rows, next) && id in rows && j in rows && slug != rows[id].slug && SlugChars(slug)
    ensures Renamed(rows, id, name, slug, active)[j].slugPath != rows[j].slugPath <==> id in Chain(rows, j)
    ensures id !in Chain(rows, j) ==> Renamed(rows, id, name, slug, active)[j] == rows[j]
  {
    RenamedRow(rows, next, id, name, slug, active, j);
    if id in Chain(rows, j) {
      ChangedPathDiffers(rows, next, id, name, slug, active, j);
    } else {
      RenamedOutside(rows, Relabelled(rows, id, name, slug, active), next, id, j);
    }
  }

  /** No sibling of id uses the slug. */
  ghost predicate FreeAmongSiblings(rows: Rows, parent: Option<Id>, slug: string, except: Option<Id>) {
    forall i :: i in rows && rows[i].parent == parent && Some(i) != except ==> rows[i].slug != slug
  }

  lemma RecomputedIsSound(rows: Rows, next: Id)
    requires Rooted(rows, next) && SlugsOk(rows) && DepthOk(rows)
    ensures Sound(Recomputed(rows), next)
  {
    var after := Recomputed(rows);
    forall j | j in rows
      ensures Chain(after, j) == Chain(rows, j) && IdParts(after, j) == IdParts(rows, j)
      ensures SlugParts(after, j) == SlugParts(rows, j)
    {
      SameParentsSameChain(rows, after, j);
      SameSlugsSameParts(rows, after, j);
    }
  }

  lemma RelabelledSlugsOk(rows: Rows, id: Id, name: string, slug: string, active: bool)
    requires SlugsOk(rows) && id in rows && SlugChars(slug) && FreeAmongSiblings(rows, rows[id].parent, slug, Some(id))
    ensures SlugsOk(Relabelled(rows, id, name, slug, active))
  {
  }

  lemma RelabelledDepthOk(rows: Rows, id: Id, name: string, slug: string, active: bool)
    requires DepthOk(rows) && id in rows
    ensures DepthOk(Relabelled(rows, id, name, slug, active))
  {
    var after := Relabelled(rows, id, name, slug, active);
    forall j | j in after ensures |Chain(after, j)| <= MAX_DEPTH {
      SameParentsSameChain(rows, after, j);
    }
  }

  lemma RelabelledIsWellFormed(rows: Rows, next: Id, id: Id, name: string, slug: string, active: bool)
    requires Rooted(rows, next) && SlugsOk(rows) && DepthOk(rows) && id in rows
    requires SlugChars(slug) && FreeAmongSiblings(rows, rows[id].parent, slug, Some(id))
    ensures var after := Relabelled(rows, id, name, slug, active);
      Rooted(after, next) && SlugsOk(after) && DepthOk(after)
  {
    RelabelledSlugsOk(rows, id, name, slug, active);
    RelabelledDepthOk(rows, id, name, slug, active);
  }

  /** A rename to a slug no sibling uses keeps the path invariant. */
  lemma RenameKeepsSound(rows: Rows, next: Id, id: Id, name: string, slug: string, active: bool)
    requires Sound(rows, next) && id in rows && SlugChars(slug)
    requires FreeAmongSiblings(rows, rows[id].parent, slug, Some(id))
    ensures Sound(Renamed(rows, id, name, slug, active), next)
  {
    RenameIsRecompute(rows, next, id, name, slug, active);
    RelabelledIsWellFormed(rows, next, id, name, slug, active);
    RecomputedIsSound(Relabelled(rows, id, name, slug, active), next);
  }

  /** The unique index on slug_path is checked row by row while the subtree is rewritten: whatever rows
      are done already, no rewritten path meets one that is still to be rewritten or never will be. */
  lemma RewriteNeverCollides(rows: Rows, next: Id, id: Id, name: string, slug: string, active: bool, i: Id, j: Id)
    requires Sound(rows, next) && id in rows && SlugChars(slug)
    requires FreeAmongSiblings(rows, rows[id].parent, slug, Some(id))
    requires i in rows && j in rows && i != j
    ensures Renamed(rows, id, name, slug, active)[i].slugPath != Renamed(rows, id, name, slug, active)[j].slugPath
    ensures Renamed(rows, id, name, slug, active)[i].slugPath != rows[j].slugPath
  {
    var after := Relabelled(rows, id, name, slug, active);
    RenameKeepsSound(rows, next, id, name, slug, active);
    PathsAreUnique(Renamed(rows, id, name, slug, active), next, i, j);
    RenamedRow(rows, next, id, name, slug, active, i);
    if Renamed(rows, id, name, slug, active)[i].slugPath == rows[j].slugPath {
      PartsArePlain(after, i);
      PartsArePlain(rows, j);
      JoinInjective(SlugParts(after, i), SlugParts(rows, j));
      NewPartsAreNew(rows, next, id, name, slug, active, i, j);
    }
  }

  /** A chain of slugs after the rename is not the chain of another category before it. */
  lemma {:induction false} NewPartsAreNew(
      rows: Rows, next: Id, id: Id, name: string, slug: string, active: bool, i: Id, j: Id)
    requires Sound(rows, next) && id in rows && FreeAmongSiblings(rows, rows[id].parent, slug, Some(id))
    requires i in rows && j in rows
    requires SlugParts(Relabelled(rows, id, name, slug, active), i) == SlugParts(rows, j)
    ensures i == j
    decreases i
  {
    var after := Relabelled(rows, id, name, slug, active);
    var parts := SlugParts(rows, j);
    var n := |parts| - 1;
    if rows[i].parent.Some? && rows[j].parent.Some? {
      var p, q := rows[i].parent.value, rows[j].parent.value;
      assert SlugParts(after, p) == parts[..n] == SlugParts(rows, q);
      NewPartsAreNew(rows, next, id, name, slug, active, p, q);
    }
  }
}
