/** The category repository and its slug search, statement by statement, with the unique indexes on
    (parent_id, slug) and slug_path and the restricting foreign key on parent_id. */
module CategoryStore {
  import opened Wrappers
  import opened Paths
  import opened Categories

  // The unique indexes.

  predicate SiblingUses(rows: Rows, parent: Option<Id>, slug: string, except: Option<Id>) {
    exists i :: i in rows && rows[i].parent == parent && Some(i) != except && rows[i].slug == slug
  }

  lemma UnusedIsFree(rows: Rows, parent: Option<Id>, slug: string, except: Option<Id>)
    ensures !SiblingUses(rows, parent, slug, except) <==> FreeAmongSiblings(rows, parent, slug, except)
  {
  }

  predicate PathUsed(rows: Rows, path: string, except: Option<Id>) {
    exists i :: i in rows && Some(i) != except && rows[i].slugPath == path
  }

  /** The index on (parent_id, slug) does not constrain roots, whose parent_id is NULL. */
  predicate SiblingIndexViolated(rows: Rows, parent: Option<Id>, slug: string, except: Option<Id>) {
    parent.Some? && SiblingUses(rows, parent, slug, except)
  }

  // Depth.

  /** array_length(string_to_array(id_path, '/'), 1), with 1 for a parent that is not there. */
  function ParentDepth(rows: Rows, parent: Option<Id>): nat {
    match parent
    case None => 0
    case Some(p) => if p in rows then |Split(rows[p].idPath)| else 1
  }

  lemma DepthIsChainLength(rows: Rows, next: Id, p: Id)
    requires Sound(rows, next) && p in rows
    ensures |Split(rows[p].idPath)| == |Chain(rows, p)|
  {
    PartsArePlain(rows, p);
    SplitJoin(IdParts(rows, p));
  }

  // Create.

  function CreatedRow(
      rows: Rows, id: Id, parent: Option<Id>, name: string, slug: string, sortOrder: int, active: bool): Category
    requires parent.Some? ==> parent.value in rows
  {
    match parent
    case None => Category(None, name, slug, sortOrder, active, Decimal(id), slug)
    case Some(p) =>
      Category(parent, name, slug, sortOrder, active, rows[p].idPath + "/" + Decimal(id), rows[p].slugPath + "/" + slug)
  }

  function Create(
      rows: Rows, next: Id, parent: Option<Id>, name: string, slug: string, sortOrder: int, active: bool):
        Result<Rows, Error> {
    if ParentDepth(rows, parent) >= MAX_DEPTH then Err(BadRequest)
    else if SiblingIndexViolated(rows, parent, slug, None) || PathUsed(rows, "", None) then Err(UniqueViolation)
    else if parent.Some? && parent.value !in rows then Err(ForeignKeyViolation)
    else
      var row := CreatedRow(rows, next, parent, name, slug, sortOrder, active);
      if PathUsed(rows, row.slugPath, None) then Err(UniqueViolation) else Ok(rows[next := row])
  }

  lemma {:induction false} ChainsStayOnCreate(rows: Rows, next: Id, row: Category, j: Id)
    requires Rooted(rows, next) && j in rows
    ensures var after := rows[next := row];
      Chain(after, j) == Chain(rows, j) && IdParts(after, j) == IdParts(rows, j)
        && SlugParts(after, j) == SlugParts(rows, j)
    decreases j
  {
    if rows[j].parent.Some? {
      ChainsStayOnCreate(rows, next, row, rows[j].parent.value);
    }
  }

  lemma CreatedPaths(rows: Rows, next: Id, parent: Option<Id>, name: string, slug: string, sortOrder: int, active: bool)
    requires Sound(rows, next) && (parent.Some? ==> parent.value in rows)
    ensures var row := CreatedRow(rows, next, parent, name, slug, sortOrder, active);
      var after := rows[next := row];
      && row.idPath == Join(IdParts(after, next)) && row.slugPath == Join(SlugParts(after, next))
      && |Chain(after, next)| == (if parent.Some? then |Chain(rows, parent.value)| else 0) + 1
  {
    var row := CreatedRow(rows, next, parent, name, slug, sortOrder, active);
    if parent.Some? {
      var p := parent.value;
      ChainsStayOnCreate(rows, next, row, p);
      JoinSnoc(IdParts(rows, p), Decimal(next));
      JoinSnoc(SlugParts(rows, p), slug);
    }
  }

  lemma CreatedWellFormed(rows: Rows, next: Id, row: Category)
    requires Rooted(rows, next) && SlugsOk(rows) && SlugChars(row.slug)
    requires row.parent.Some? ==> row.parent.value in rows
    requires FreeAmongSiblings(rows, row.parent, row.slug, None)
    ensures Rooted(rows[next := row], next + 1) && SlugsOk(rows[next := row])
  {
  }

  lemma CreatedRowsSpellPaths(rows: Rows, next: Id, row: Category)
    requires Rooted(rows, next) && PathsOk(rows) && DepthOk(rows)
    requires var after := rows[next := row];
      row.idPath == Join(IdParts(after, next)) && row.slugPath == Join(SlugParts(after, next))
        && |Chain(after, next)| <= MAX_DEPTH
    ensures PathsOk(rows[next := row]) && DepthOk(rows[next := row])
  {
    var after := rows[next := row];
    forall j | j in after
      ensures after[j].idPath == Join(IdParts(after, j)) && after[j].slugPath == Join(SlugParts(after, j))
      ensures |Chain(after, j)| <= MAX_DEPTH
    {
      if j != next {
        assert next !in rows;
        ChainsStayOnCreate(rows, next, row, j);
      }
    }
  }

  lemma CreateKeepsSound(
      rows: Rows, next: Id, parent: Option<Id>, name: string, slug: string, sortOrder: int, active: bool)
    requires Sound(rows, next) && SlugChars(slug)
    requires (parent.Some? ==> parent.value in rows && |Chain(rows, parent.value)| < MAX_DEPTH)
    requires FreeAmongSiblings(rows, parent, slug, None)
    ensures Sound(rows[next := CreatedRow(rows, next, parent, name, slug, sortOrder, active)], next + 1)
  {
    var row := CreatedRow(rows, next, parent, name, slug, sortOrder, active);
    CreatedPaths(rows, next, parent, name, slug, sortOrder, active);
    CreatedWellFormed(rows, next, row);
    CreatedRowsSpellPaths(rows, next, row);
  }

  lemma NewestPathIsNew(rows: Rows, next: Id, row: Category, i: Id)
    requires Sound(rows[next := row], next + 1) && next !in rows && i in rows
    ensures rows[i].slugPath != row.slugPath
  {
    PathsAreUnique(rows[next := row], next + 1, i, next);
  }

  lemma CreatedPathIsNew(
      rows: Rows, next: Id, parent: Option<Id>, name: string, slug: string, sortOrder: int, active: bool)
    requires Sound(rows, next) && SlugChars(slug)
    requires (parent.Some? ==> parent.value in rows && |Chain(rows, parent.value)| < MAX_DEPTH)
    requires FreeAmongSiblings(rows, parent, slug, None)
    ensures !PathUsed(rows, CreatedRow(rows, next, parent, name, slug, sortOrder, active).slugPath, None)
  {
    var row := CreatedRow(rows, next, parent, name, slug, sortOrder, active);
    CreateKeepsSound(rows, next, parent, name, slug, sortOrder, active);
    assert next !in rows;
    forall i | i in rows ensures rows[i].slugPath != row.slugPath {
      NewestPathIsNew(rows, next, row, i);
    }
  }

  lemma RootSlugIsItsPath(rows: Rows, next: Id, i: Id)
    requires Sound(rows, next) && i in rows && rows[i].parent == None
    ensures rows[i].slugPath == rows[i].slug
  {
  }

  lemma CreateUnderGoodParent(
      rows: Rows, next: Id, parent: Option<Id>, name: string, slug: string, sortOrder: int, active: bool)
    requires Sound(rows, next) && SlugChars(slug)
    requires (parent.Some? ==> parent.value in rows && |Chain(rows, parent.value)| < MAX_DEPTH)
    ensures Create(rows, next, parent, name, slug, sortOrder, active) ==
      if FreeAmongSiblings(rows, parent, slug, None) && !PathUsed(rows, "", None)
      then Ok(rows[next := CreatedRow(rows, next, parent, name, slug, sortOrder, active)]) else Err(UniqueViolation)
    ensures FreeAmongSiblings(rows, parent, slug, None) ==>
      Sound(rows[next := CreatedRow(rows, next, parent, name, slug, sortOrder, active)], next + 1)
  {
    UnusedIsFree(rows, parent, slug, None);
    if parent.Some? {
      DepthIsChainLength(rows, next, parent.value);
    }
    if FreeAmongSiblings(rows, parent, slug, None) {
      CreateKeepsSound(rows, next, parent, name, slug, sortOrder, active);
      CreatedPathIsNew(rows, next, parent, name, slug, sortOrder, active);
    } else if parent == None {
      assert PathUsed(rows, slug, None) by {
        var i :| i in rows && rows[i].parent == parent && Some(i) != None && rows[i].slug == slug;
        RootSlugIsItsPath(rows, next, i);
      }
    }
  }

  /** Exactly when create succeeds, and that it keeps the path invariant.  A category whose path is the
      empty string, a root with an empty slug, blocks every creation: the row is inserted with an empty
      path first. */
  lemma CreateSucceedsIff(
      rows: Rows, next: Id, parent: Option<Id>, name: string, slug: string, sortOrder: int, active: bool)
    requires Sound(rows, next) && SlugChars(slug)
    ensures Create(rows, next, parent, name, slug, sortOrder, active).Ok? <==>
      && (parent.Some? ==> parent.value in rows && |Chain(rows, parent.value)| < 3)
      && FreeAmongSiblings(rows, parent, slug, None)
      && !PathUsed(rows, "", None)
    ensures Create(rows, next, parent, name, slug, sortOrder, active).Ok? ==>
      Sound(Create(rows, next, parent, name, slug, sortOrder, active).value, next + 1)
  {
    UnusedIsFree(rows, parent, slug, None);
    if (parent.Some? ==> parent.value in rows && |Chain(rows, parent.value)| < MAX_DEPTH) {
      CreateUnderGoodParent(rows, next, parent, name, slug, sortOrder, active);
    } else {
      assert Create(rows, next, parent, name, slug, sortOrder, active).Err? by {
        if parent.value in rows {
          DepthIsChainLength(rows, next, parent.value);
        }
      }
    }
  }

  /** What a created row holds, field by field, and that no other row changes. */
  lemma CreateEffect(
      rows: Rows, next: Id, parent: Option<Id>, name: string, slug: string, sortOrder: int, active: bool)
    requires next !in rows && Create(rows, next, parent, name, slug, sortOrder, active).Ok?
    ensures var after := Create(rows, next, parent, name, slug, sortOrder, active).value;
      && after.Keys == rows.Keys + {next} && (forall j :: j in rows ==> after[j] == rows[j])
      && var row := after[next];
         && row.parent == parent && row.name == name && row.slug == slug && row.sortOrder == sortOrder
         && row.active == active
         && (parent == None ==> row.idPath == Decimal(next) && row.slugPath == slug)
         && (parent.Some? ==>
               && parent.value in rows && row.idPath == rows[parent.value].idPath + "/" + Decimal(next)
               && row.slugPath == rows[parent.value].slugPath + "/" + slug)
  {
  }

  /** Each refusal of a creation has its own exact condition. */
  lemma CreateRefusals(
      rows: Rows, next: Id, parent: Option<Id>, name: string, slug: string, sortOrder: int, active: bool)
    requires Sound(rows, next) && SlugChars(slug)
    ensures var r := Create(rows, next, parent, name, slug, sortOrder, active);
      var missing := parent.Some? && parent.value !in rows;
      var tooDeep := parent.Some? && parent.value in rows && |Chain(rows, parent.value)| >= 3;
      var blocked := exists i :: i in rows && rows[i].slugPath == "";
      && (r == Err(BadRequest) <==> tooDeep)
      && (r == Err(ForeignKeyViolation) <==> missing && !blocked)
      && (r == Err(UniqueViolation) <==>
            !tooDeep && (blocked || (!missing && !FreeAmongSiblings(rows, parent, slug, None))))
  {
    var blocked := exists i :: i in rows && rows[i].slugPath == "";
    assert blocked <==> PathUsed(rows, "", None) by {
      if i :| i in rows && rows[i].slugPath == "" {
        assert i in rows && Some(i) != None;
      }
    }
    UnusedIsFree(rows, parent, slug, None);
    if parent.Some? && parent.value in rows {
      DepthIsChainLength(rows, next, parent.value);
    }
    if (parent.Some? ==> parent.value in rows && |Chain(rows, parent.value)| < MAX_DEPTH) {
      CreateUnderGoodParent(rows, next, parent, name, slug, sortOrder, active);
    }
  }

  /** A name without letters or digits, such as "!!!", has the empty slug.  The first category may carry
      it, and while a category has an empty path nothing can be created, whatever its parent and slug. */
  lemma EmptySlugBlocksCreation(name: string, sortOrder: int, active: bool)
    ensures var first := Create(map[], 1, None, name, "", sortOrder, active);
      first.Ok? && Sound(first.value, 2)
    ensures var rows := Create(map[], 1, None, name, "", sortOrder, active).value;
      forall parent, other, slug, position, on :: Create(rows, 2, parent, other, slug, position, on).Err?
  {
    CreateSucceedsIff(map[], 1, None, name, "", sortOrder, active);
    var rows := Create(map[], 1, None, name, "", sortOrder, active).value;
    assert rows[1].slugPath == "";
    assert PathUsed(rows, "", None);
  }

  // Update.

  predicate Collision(rows: Rows) {
    exists i, j :: i in rows && j in rows && i != j && rows[i].slugPath == rows[j].slugPath
  }

  function Update(rows: Rows, id: Id, name: string, slug: string, active: bool): Result<Rows, Error> {
    if id !in rows then Err(NotFound)
    else if SiblingIndexViolated(rows, rows[id].parent, slug, Some(id)) then Err(UniqueViolation)
    else if PathUsed(rows, NewSlugPath(rows, id, slug), Some(id)) then Err(UniqueViolation)
    else if Collision(Renamed(rows, id, name, slug, active)) then Err(UniqueViolation)
    else Ok(Renamed(rows, id, name, slug, active))
  }

  lemma RenameMeetsNoIndex(rows: Rows, next: Id, id: Id, name: string, slug: string, active: bool)
    requires Sound(rows, next) && SlugChars(slug) && id in rows
    requires FreeAmongSiblings(rows, rows[id].parent, slug, Some(id))
    ensures !PathUsed(rows, NewSlugPath(rows, id, slug), Some(id)) && !Collision(Renamed(rows, id, name, slug, active))
  {
    var after := Renamed(rows, id, name, slug, active);
    forall i, j | i in after && j in after && i != j ensures after[i].slugPath != after[j].slugPath {
      RewriteNeverCollides(rows, next, id, name, slug, active, i, j);
    }
    forall i | i in rows && i != id ensures rows[i].slugPath != after[id].slugPath {
      RewriteNeverCollides(rows, next, id, name, slug, active, id, i);
    }
  }

  lemma TakenSlugMeetsAnIndex(rows: Rows, next: Id, id: Id, slug: string)
    requires Sound(rows, next) && id in rows && !FreeAmongSiblings(rows, rows[id].parent, slug, Some(id))
    ensures SiblingIndexViolated(rows, rows[id].parent, slug, Some(id)) ||
      PathUsed(rows, NewSlugPath(rows, id, slug), Some(id))
  {
    var i :| i in rows && rows[i].parent == rows[id].parent && Some(i) != Some(id) && rows[i].slug == slug;
    if rows[id].parent == None {
      RootSlugIsItsPath(rows, next, i);
    }
  }

  /** Exactly when update succeeds, and that it keeps the path invariant: no unique index stops a rename
      to a slug that is free among the siblings. */
  lemma UpdateSucceedsIff(rows: Rows, next: Id, id: Id, name: string, slug: string, active: bool)
    requires Sound(rows, next) && SlugChars(slug)
    ensures Update(rows, id, name, slug, active).Ok?
      <==> id in rows && FreeAmongSiblings(rows, rows[id].parent, slug, Some(id))
    ensures Update(rows, id, name, slug, active).Ok? ==> Sound(Update(rows, id, name, slug, active).value, next)
  {
    if id in rows {
      if FreeAmongSiblings(rows, rows[id].parent, slug, Some(id)) {
        RenameMeetsNoIndex(rows, next, id, name, slug, active);
        RenameKeepsSound(rows, next, id, name, slug, active);
      } else {
        TakenSlugMeetsAnIndex(rows, next, id, slug);
      }
    }
  }

  /** What a rename leaves, field by field: the row has the new name, slug and status and keeps its parent,
      position and id path; every other row keeps all but perhaps its slug path. */
  lemma UpdateEffect(rows: Rows, id: Id, name: string, slug: string, active: bool)
    ensures Update(rows, id, name, slug, active) == Err(NotFound) <==> id !in rows
    ensures Update(rows, id, name, slug, active).Err? && id in rows ==>
      Update(rows, id, name, slug, active) == Err(UniqueViolation)
    ensures Update(rows, id, name, slug, active).Ok? ==>
      var after := Update(rows, id, name, slug, active).value;
      && after.Keys == rows.Keys
      && after[id].name == name && after[id].slug == slug && after[id].active == active
      && after[id].parent == rows[id].parent && after[id].sortOrder == rows[id].sortOrder
      && after[id].idPath == rows[id].idPath
      && (forall j :: j in rows && j != id ==>
            && after[j].name == rows[j].name && after[j].slug == rows[j].slug && after[j].active == rows[j].active
            && after[j].parent == rows[j].parent && after[j].sortOrder == rows[j].sortOrder
            && after[j].idPath == rows[j].idPath)
  {
  }

  // Remove.

  predicate HasChild(rows: Rows, id: Id) {
    exists i :: i in rows && rows[i].parent == Some(id)
  }

  /** referenced stands for rows of other tables whose foreign keys point here. */
  function Remove(rows: Rows, id: Id, usedByBanner: bool, referenced: bool): Result<Rows, Error> {
    if usedByBanner then Err(BadRequest)
    else if id !in rows then Err(NotFound)
    else if HasChild(rows, id) || referenced then Err(ForeignKeyViolation)
    else Ok(rows - {id})
  }

  /** A removal succeeds exactly when no banner uses the category, it is there, no category has it as
      parent and nothing else refers to it; then it is gone and every other row is as before. */
  lemma RemoveEffect(rows: Rows, id: Id, usedByBanner: bool, referenced: bool)
    ensures var r := Remove(rows, id, usedByBanner, referenced);
      var parented := exists j :: j in rows && rows[j].parent == Some(id);
      && (r.Ok? <==> !usedByBanner && id in rows && !parented && !referenced)
      && (r == Err(BadRequest) <==> usedByBanner)
      && (r == Err(NotFound) <==> !usedByBanner && id !in rows)
      && (r == Err(ForeignKeyViolation) <==> !usedByBanner && id in rows && (parented || referenced))
      && (r.Ok? ==>
            id !in r.value && r.value.Keys == rows.Keys - {id} && forall j :: j in r.value ==> r.value[j] == rows[j])
  {
  }

  lemma {:induction false} ChainsStayOnRemove(rows: Rows, next: Id, id: Id, j: Id)
    requires Rooted(rows, next) && !HasChild(rows, id) && j in rows && j != id
    ensures Chain(rows - {id}, j) == Chain(rows, j) && IdParts(rows - {id}, j) == IdParts(rows, j)
    ensures SlugParts(rows - {id}, j) == SlugParts(rows, j)
    decreases j
  {
    if rows[j].parent.Some? {
      assert rows[j].parent.value != id;
      ChainsStayOnRemove(rows, next, id, rows[j].parent.value);
    }
  }

  lemma RemoveKeepsSound(rows: Rows, next: Id, id: Id)
    requires Sound(rows, next) && !HasChild(rows, id)
    ensures Sound(rows - {id}, next)
  {
    forall j | j in rows && j != id
      ensures Chain(rows - {id}, j) == Chain(rows, j) && IdParts(rows - {id}, j) == IdParts(rows, j)
      ensures SlugParts(rows - {id}, j) == SlugParts(rows, j)
    {
      ChainsStayOnRemove(rows, next, id, j);
    }
    forall j | j in rows - {id} && rows[j].parent.Some? ensures rows[j].parent.value != id {
      assert rows[j].parent != Some(id);
    }
  }

  // Any sequence of operations.

  datatype Op =
    | CreateOp(parent: Option<Id>, name: string, slug: string, sortOrder: int, active: bool)
    | UpdateOp(id: Id, name: string, slug: string, active: bool)
    | RemoveOp(id: Id, usedByBanner: bool, referenced: bool)

  datatype Table = Table(rows: Rows, next: Id)

  /** An operation that fails leaves the table alone. */
  function Perform(t: Table, op: Op): Table {
    match op
    case CreateOp(parent, name, slug, sortOrder, active) =>
      (match Create(t.rows, t.next, parent, name, slug, sortOrder, active) case Ok(rows) => Table(rows, t.next + 1)
        case Err(_) => t)
    case UpdateOp(id, name, slug, active) =>
      (match Update(t.rows, id, name, slug, active) case Ok(rows) => Table(rows, t.next) case Err(_) => t)
    case RemoveOp(id, usedByBanner, referenced) =>
      (match Remove(t.rows, id, usedByBanner, referenced) case Ok(rows) => Table(rows, t.next) case Err(_) => t)
  }

  function PerformAll(t: Table, ops: seq<Op>): Table
    decreases |ops|
  {
    if ops == [] then t else PerformAll(Perform(t, ops[0]), ops[1..])
  }

  ghost predicate Slugified(op: Op) {
    match op
    case CreateOp(_, _, slug, _, _) => SlugChars(slug)
    case UpdateOp(_, _, slug, _) => SlugChars(slug)
    case RemoveOp(_, _, _) => true
  }

  lemma PerformKeepsSound(t: Table, op: Op)
    requires Sound(t.rows, t.next) && Slugified(op)
    ensures Sound(Perform(t, op).rows, Perform(t, op).next)
  {
    match op
    case CreateOp(parent, name, slug, sortOrder, active) =>
      CreateSucceedsIff(t.rows, t.next, parent, name, slug, sortOrder, active);
    case UpdateOp(id, name, slug, active) => UpdateSucceedsIff(t.rows, t.next, id, name, slug, active);
    case RemoveOp(id, usedByBanner, referenced) =>
      if Remove(t.rows, id, usedByBanner, referenced).Ok? {
        RemoveKeepsSound(t.rows, t.next, id);
      }
  }

  lemma {:induction false} SequencesKeepSound(t: Table, ops: seq<Op>)
    requires Sound(t.rows, t.next) && forall i :: 0 <= i < |ops| ==> Slugified(ops[i])
    ensures Sound(PerformAll(t, ops).rows, PerformAll(t, ops).next)
    decreases |ops|
  {
    if ops != [] {
      PerformKeepsSound(t, ops[0]);
      SequencesKeepSound(Perform(t, ops[0]), ops[1..]);
    }
  }

  /** After any sequence of creates, renames and removes from the empty table, every category's id path
      and slug path spell its ancestors, no chain is longer than three, and no two slug paths agree. */
  lemma PathInvariant(ops: seq<Op>, id: Id)
    requires forall i :: 0 <= i < |ops| ==> Slugified(ops[i])
    requires id in PerformAll(Table(map[], 1), ops).rows
    ensures var rows := PerformAll(Table(map[], 1), ops).rows;
      && rows[id].idPath == Join(IdParts(rows, id))
      && rows[id].slugPath == Join(SlugParts(rows, id))
      && |Chain(rows, id)| <= 3
      && forall j :: j in rows && j != id ==> rows[j].slugPath != rows[id].slugPath
  {
    var t := PerformAll(Table(map[], 1), ops);
    SequencesKeepSound(Table(map[], 1), ops);
    forall j | j in t.rows && j != id ensures t.rows[j].slugPath != t.rows[id].slugPath {
      PathsAreUnique(t.rows, t.next, j, id);
    }
  }

  // The slug search.

  /** base, base-2, base-3, ... */
  function Candidate(base: string, k: nat): string
    requires k >= 1
  {
    if k == 1 then base else base + "-" + Decimal(k)
  }

  lemma CandidatesDiffer(base: string, i: nat, j: nat)
    requires 1 <= i < j
    ensures Candidate(base, i) != Candidate(base, j)
  {
    DecimalIsDigits(j);
    if i == 1 {
      assert |Candidate(base, j)| > |base|;
    } else if Candidate(base, i) == Candidate(base, j) {
      var head := base + "-";
      assert Candidate(base, i)[|head|..] == Decimal(i) && Candidate(base, j)[|head|..] == Decimal(j);
      DecimalInjective(i, j);
    }
  }

  lemma CandidateIsSlug(base: string, k: nat)
    requires SlugChars(base) && k >= 1
    ensures SlugChars(Candidate(base, k))
  {
    DecimalIsDigits(k);
  }

  /** Pigeonhole: k different candidates in a set of used slugs make k at most its size. */
  lemma {:induction false} CandidatesFit(base: string, used: set<string>, k: nat)
    requires forall m :: 1 <= m <= k ==> Candidate(base, m) in used
    ensures k <= |used|
  {
    if k > 0 {
      forall m | 1 <= m <= k - 1 ensures Candidate(base, m) in used - {Candidate(base, k)} {
        CandidatesDiffer(base, m, k);
      }
      CandidatesFit(base, used - {Candidate(base, k)}, k - 1);
    }
  }

  ghost function SiblingSlugs(rows: Rows, parent: Option<Id>, except: Option<Id>): set<string> {
    set i | i in rows && rows[i].parent == parent && Some(i) != except :: rows[i].slug
  }

  /** The last statement of the rename. */
  function SubtreeRewritten(rows: Rows, id: Id, before: string, after: string): Rows {
    map j | j in rows ::
      if Like(before + "/%", rows[j].slugPath) && j != id
      then rows[j].(slugPath := ReplacePrefix(rows[j].slugPath, before, after)) else rows[j]
  }

  lemma StatementsMakeRename(rows: Rows, id: Id, name: string, slug: string, active: bool)
    requires id in rows
    ensures var after := NewSlugPath(rows, id, slug);
      var relabelled := Relabelled(rows, id, name, slug, active);
      SubtreeRewritten(relabelled[id := relabelled[id].(slugPath := after)], id, rows[id].slugPath, after)
      == Renamed(rows, id, name, slug, active)
  {
  }

  /** slug is the first candidate that no sibling uses, found within one probe more than the number of
      slugs the siblings use. */
  ghost predicate FirstFree(rows: Rows, parent: Option<Id>, base: string, except: Option<Id>, slug: string) {
    exists k: nat :: FirstFreeAt(rows, parent, base, except, slug, k)
  }

  ghost predicate FirstFreeAt(rows: Rows, parent: Option<Id>, base: string, except: Option<Id>, slug: string, k: nat) {
    && 1 <= k <= |SiblingSlugs(rows, parent, except)| + 1
    && slug == Candidate(base, k) && !SiblingUses(rows, parent, slug, except)
    && forall m :: 1 <= m < k ==> SiblingUses(rows, parent, Candidate(base, m), except)
  }

  /** With the slug the search finds, create fails only for a missing or too deep parent or an empty path
      already stored, and update fails only for a missing row. */
  lemma FoundSlugSucceeds(
      t: Table, parent: Option<Id>, name: string, base: string, slug: string, sortOrder: int, active: bool)
    requires Sound(t.rows, t.next) && SlugChars(base) && FirstFree(t.rows, parent, base, None, slug)
    ensures Create(t.rows, t.next, parent, name, slug, sortOrder, active).Ok? <==>
      (parent.Some? ==> parent.value in t.rows && |Chain(t.rows, parent.value)| < MAX_DEPTH)
        && !PathUsed(t.rows, "", None)
  {
    var k: nat :| FirstFreeAt(t.rows, parent, base, None, slug, k);
    CandidateIsSlug(base, k);
    CreateSucceedsIff(t.rows, t.next, parent, name, slug, sortOrder, active);
    assert FreeAmongSiblings(t.rows, parent, slug, None) by {
      UnusedIsFree(t.rows, parent, slug, None);
    }
  }

  lemma FoundSlugRenames(t: Table, id: Id, name: string, base: string, slug: string, active: bool)
    requires Sound(t.rows, t.next) && SlugChars(base) && id in t.rows
    requires FirstFree(t.rows, t.rows[id].parent, base, Some(id), slug)
    ensures Update(t.rows, id, name, slug, active) == Ok(Recomputed(Relabelled(t.rows, id, name, slug, active)))
  {
    var k: nat :| FirstFreeAt(t.rows, t.rows[id].parent, base, Some(id), slug, k);
    CandidateIsSlug(base, k);
    UnusedIsFree(t.rows, t.rows[id].parent, slug, Some(id));
    UpdateSucceedsIff(t.rows, t.next, id, name, slug, active);
    RenameIsRecompute(t.rows, t.next, id, name, slug, active);
  }

  class Store {
    var rows: Rows
    var next: Id

    constructor ()
      ensures rows == map[] && next == 1
    {
      rows, next := map[], 1;
    }

    /** The search loop: it ends within n + 1 probes when the siblings use n different slugs, and returns
        the first candidate none of them uses. */
    method GenerateUniqueSlug(
        base: string, parent: Option<Id>, except: Option<Id>) returns (slug: string, ghost probes: nat)
      ensures FirstFree(rows, parent, base, except, slug) && FirstFreeAt(rows, parent, base, except, slug, probes)
      ensures forall i :: i in rows && rows[i].parent == parent && Some(i) != except ==> rows[i].slug != slug
      ensures probes == 1 ==> slug == base
      ensures probes > 1 ==> slug == base + "-" + Decimal(probes) && SiblingUses(rows, parent, base, except)
      ensures forall m :: 2 <= m < probes ==> SiblingUses(rows, parent, base + "-" + Decimal(m), except)
    {
      slug := base;
      var counter := 2;
      probes := 1;
      while true
        invariant counter >= 2 && probes == counter - 1 && slug == Candidate(base, probes)
        invariant forall m :: 1 <= m < probes ==> SiblingUses(rows, parent, Candidate(base, m), except)
        invariant probes <= |SiblingSlugs(rows, parent, except)| + 1
        decreases |SiblingSlugs(rows, parent, except)| + 1 - probes
      {
        ghost var used := SiblingSlugs(rows, parent, except);
        forall m | 1 <= m < probes ensures Candidate(base, m) in used {
          var i :| i in rows && rows[i].parent == parent && Some(i) != except && rows[i].slug == Candidate(base, m);
        }
        if !SiblingUses(rows, parent, slug, except) {
          assert FirstFreeAt(rows, parent, base, except, slug, probes);
          assert probes > 1 ==> SiblingUses(rows, parent, Candidate(base, 1), except);
          forall m | 2 <= m < probes ensures SiblingUses(rows, parent, base + "-" + Decimal(m), except) {
            assert SiblingUses(rows, parent, Candidate(base, m), except);
          }
          return slug, probes;
        }
        var i :| i in rows && rows[i].parent == parent && Some(i) != except && rows[i].slug == slug;
        assert Candidate(base, probes) in used;
        CandidatesFit(base, used, probes);
        slug := base + "-" + Decimal(counter);
        counter := counter + 1;
        probes := probes + 1;
      }
    }

    /** Insert with empty paths, then compute both paths from the parent and store them.  The slug is the
        one the search finds. */
    method CreateCategory(parent: Option<Id>, name: string, base: string, sortOrder: int, active: bool)
      returns (r: Result<Id, Error>, ghost slug: string)
      modifies this
      ensures FirstFree(old(rows), parent, base, None, slug)
      ensures match Create(old(rows), old(next), parent, name, slug, sortOrder, active)
        case Ok(after) => r == Ok(old(next)) && rows == after && next == old(next) + 1
        case Err(e) => r == Err(e) && rows == old(rows) && next == old(next)
    {
      var found, probes := GenerateUniqueSlug(base, parent, None);
      slug := found;
      if ParentDepth(rows, parent) >= MAX_DEPTH {
        return Err(BadRequest), slug;
      }
      if SiblingIndexViolated(rows, parent, found, None) || PathUsed(rows, "", None) {
        return Err(UniqueViolation), slug;
      }
      if parent.Some? && parent.value !in rows {
        return Err(ForeignKeyViolation), slug;
      }
      var before, id := rows, next;
      rows := rows[id := Category(parent, name, found, sortOrder, active, "", "")];
      var idPath, slugPath := Decimal(id), found;
      if parent.Some? {
        idPath, slugPath := before[parent.value].idPath + "/" + idPath, before[parent.value].slugPath + "/" + found;
      }
      if PathUsed(before, slugPath, None) {
        rows := before;
        return Err(UniqueViolation), slug;
      }
      rows := rows[id := rows[id].(idPath := idPath, slugPath := slugPath)];
      next := id + 1;
      assert rows == before[id := CreatedRow(before, id, parent, name, slug, sortOrder, active)];
      return Ok(id), slug;
    }

    /** The statements of the rename; the unique index can stop each of the three updates. */
    method UpdateCategory(
        id: Id, name: string, base: string, active: bool) returns (r: Result<(), Error>, ghost slug: string)
      modifies this`rows
      ensures id in old(rows) ==> FirstFree(old(rows), old(rows)[id].parent, base, Some(id), slug)
      ensures match Update(old(rows), id, name, slug, active)
        case Ok(after) => r == Ok(()) && rows == after
        case Err(e) => r == Err(e) && rows == old(rows)
    {
      slug := base;
      if id !in rows {
        return Err(NotFound), slug;
      }
      var found, probes := GenerateUniqueSlug(base, rows[id].parent, Some(id));
      slug := found;
      var saved := rows;
      var before := rows[id].slugPath;
      if SiblingIndexViolated(rows, rows[id].parent, found, Some(id)) {
        return Err(UniqueViolation), slug;
      }
      var after := NewSlugPath(rows, id, found);
      rows := Relabelled(rows, id, name, found, active);
      if PathUsed(saved, after, Some(id)) {
        rows := saved;
        return Err(UniqueViolation), slug;
      }
      rows := rows[id := rows[id].(slugPath := after)];
      rows := SubtreeRewritten(rows, id, before, after);
      StatementsMakeRename(saved, id, name, found, active);
      if Collision(rows) {
        rows := saved;
        return Err(UniqueViolation), slug;
      }
      return Ok(()), slug;
    }

    method RemoveCategory(id: Id, usedByBanner: bool, referenced: bool) returns (r: Result<(), Error>)
      modifies this`rows
      ensures match Remove(old(rows), id, usedByBanner, referenced)
        case Ok(after) => r == Ok(()) && rows == after
        case Err(e) => r == Err(e) && rows == old(rows)
      ensures Sound(old(rows), next) ==> Sound(rows, next)
      ensures r.Ok? <==>
        && !usedByBanner && id in old(rows) && !referenced
        && forall j :: j in old(rows) ==> old(rows)[j].parent != Some(id)
      ensures r.Ok? ==> rows.Keys == old(rows).Keys - {id} && forall j :: j in rows ==> rows[j] == old(rows)[j]
      ensures r.Err? ==> rows == old(rows)
    {
      if usedByBanner {
        return Err(BadRequest);
      }
      if id !in rows {
        return Err(NotFound);
      }
      if HasChild(rows, id) || referenced {
        return Err(ForeignKeyViolation);
      }
      if Sound(rows, next) {
        RemoveKeepsSound(rows, next, id);
      }
      rows := rows - {id};
      return Ok(());
    }
  }
}
