/** Matching the uploaded files of a product update to the images that name them. */
module ImageFiles {
  import opened Wrappers
  import opened ProductImages
  import FiniteSets

  datatype File = File(name: string, key: string)

  /** The entries that name a file, in order. */
  function Named(images: seq<Entry>): (named: seq<Entry>)
    ensures forall i :: 0 <= i < |named| ==> Adds(named[i])
  {
    if images == [] then []
    else
      var n := |images| - 1;
      Named(images[..n]) + if Adds(images[n]) then [images[n]] else []
  }

  function EntryNames(named: seq<Entry>): set<string> {
    set i | 0 <= i < |named| && named[i].fileName.Some? :: named[i].fileName.value
  }

  function FileNames(files: seq<File>): set<string> {
    set i | 0 <= i < |files| :: files[i].name
  }

  ghost predicate NamesOnce(named: seq<Entry>) {
    forall i, j :: 0 <= i < j < |named| ==> named[i].fileName != named[j].fileName
  }

  ghost predicate FilesOnce(files: seq<File>) {
    forall i, j :: 0 <= i < j < |files| ==> files[i].name != files[j].name
  }

  lemma {:induction false} NamesCount(named: seq<Entry>)
    requires NamesOnce(named) && forall i :: 0 <= i < |named| ==> Adds(named[i])
    ensures |EntryNames(named)| == |named|
  {
    if named != [] {
      var n := |named| - 1;
      NamesCount(named[..n]);
      forall i | 0 <= i < n ensures named[..n][i] == named[i] {
      }
      assert EntryNames(named) == EntryNames(named[..n]) + {named[n].fileName.value};
    }
  }

  lemma {:induction false} FilesCount(files: seq<File>)
    requires FilesOnce(files)
    ensures |FileNames(files)| == |files|
  {
    if files != [] {
      var n := |files| - 1;
      FilesCount(files[..n]);
      forall i | 0 <= i < n ensures files[..n][i] == files[i] {
      }
      assert FileNames(files) == FileNames(files[..n]) + {files[n].name};
    }
  }

  /** Each position gets the file its entry names; a later entry at the same position wins. */
  function Positions(named: seq<Entry>, uploaded: map<string, File>): Option<map<nat, File>> {
    if named == [] then Some(map[])
    else
      var n := |named| - 1;
      match Positions(named[..n], uploaded)
      case None => None
      case Some(before) =>
        if named[n].fileName.Some? && named[n].fileName.value in uploaded
        then Some(before[named[n].sortOrder := uploaded[named[n].fileName.value]]) else None
  }

  lemma {:induction false} PositionsExist(named: seq<Entry>, uploaded: map<string, File>)
    requires forall i :: 0 <= i < |named| ==> Adds(named[i])
    ensures Positions(named, uploaded).Some? <==> EntryNames(named) <= uploaded.Keys
  {
    if named != [] {
      var n := |named| - 1;
      PositionsExist(named[..n], uploaded);
      forall i | 0 <= i < n ensures named[..n][i] == named[i] {
      }
      assert EntryNames(named) == EntryNames(named[..n]) + {named[n].fileName.value};
    }
  }

  /** With distinct positions every entry finds the file it names at its position, and there are no others. */
  lemma {:induction false} PositionsGiveNamedFiles(named: seq<Entry>, uploaded: map<string, File>, i: nat)
    requires Positions(named, uploaded).Some? && i < |named| && DistinctPositions(named)
    ensures named[i].fileName.Some? && named[i].fileName.value in uploaded
    ensures named[i].sortOrder in Positions(named, uploaded).value
    ensures Positions(named, uploaded).value[named[i].sortOrder] == uploaded[named[i].fileName.value]
  {
    var n := |named| - 1;
    if i < n {
      PositionsGiveNamedFiles(named[..n], uploaded, i);
      assert named[..n][i] == named[i];
    }
  }

  lemma {:induction false} NamedMember(images: seq<Entry>, e: Entry)
    ensures e in Named(images) <==> e in images && e.fileName.Some?
  {
    if images != [] {
      NamedMember(images[..|images| - 1], e);
      assert images == images[..|images| - 1] + [images[|images| - 1]];
    }
  }

  /** A request whose files match leaves no added image without its file. */
  lemma MatchedFilesAreThere(
      images: seq<Entry>, uploaded: map<string, File>, existing: set<Id>, keys: map<nat, string>, e: Entry)
    requires Positions(Named(images), uploaded).Some? && keys.Keys == Positions(Named(images), uploaded).value.Keys
    requires e in images && !Reuses(e) && DistinctPositions(Named(images))
    ensures ReferenceOk(existing, keys, e)
  {
    NamedMember(images, e);
    if Adds(e) {
      var i :| 0 <= i < |Named(images)| && Named(images)[i] == e;
      PositionsGiveNamedFiles(Named(images), uploaded, i);
    }
  }

  /** The request and the upload match: the names in the request are distinct, the uploaded names are
      distinct, and they are the same names. */
  ghost predicate Matches(images: seq<Entry>, files: seq<File>) {
    NamesOnce(Named(images)) && FilesOnce(files) && EntryNames(Named(images)) == FileNames(files)
  }

  ghost predicate Indexes(uploaded: map<string, File>, files: seq<File>) {
    uploaded.Keys == FileNames(files) && forall x :: x in uploaded ==> uploaded[x].name == x && uploaded[x] in files
  }

  /** Succeeds exactly when request and upload match, and then maps each position to the file named there. */
  method ValidateAndMapProductImages(
      images: seq<Entry>, files: seq<File>)
      returns (r: Result<map<nat, File>, Error>, ghost uploaded: map<string, File>)
    ensures r.Ok? <==> Matches(images, files)
    ensures r.Err? ==> r.error == BadRequest
    ensures r.Ok? ==> Indexes(uploaded, files) && Positions(Named(images), uploaded) == Some(r.value)
  {
    var entries := SelectNamed(images);
    uploaded := map[];
    if |entries| == 0 {
      if |files| > 0 {
        assert files[0].name in FileNames(files);
        return Err(BadRequest), uploaded;
      }
      return Ok(map[]), uploaded;
    }
    var distinct := CheckNames(entries);
    if !distinct {
      return Err(BadRequest), uploaded;
    }
    var index := IndexFiles(files);
    if index.Err? {
      return Err(BadRequest), uploaded;
    }
    uploaded := index.value;
    assert |index.value.Keys| == |index.value|;
    NamesCount(entries);
    FilesCount(files);
    PositionsExist(entries, index.value);
    if |index.value| != |entries| {
      return Err(BadRequest), uploaded;
    }
    if EntryNames(entries) <= FileNames(files) {
      FiniteSets.SubsetOfSameSize(EntryNames(entries), FileNames(files));
    }
    r := MapPositions(entries, index.value);
  }

  method SelectNamed(images: seq<Entry>) returns (entries: seq<Entry>)
    ensures entries == Named(images)
  {
    entries := [];
    for i := 0 to |images|
      invariant entries == Named(images[..i])
    {
      assert images[..i + 1][..i] == images[..i];
      if Adds(images[i]) {
        entries := entries + [images[i]];
      }
    }
    assert images[..|images|] == images;
  }

  method MapPositions(entries: seq<Entry>, uploaded: map<string, File>) returns (r: Result<map<nat, File>, Error>)
    requires forall i :: 0 <= i < |entries| ==> Adds(entries[i])
    ensures r == match Positions(entries, uploaded) case Some(m) => Ok(m) case None => Err(BadRequest)
  {
    var imageMap: map<nat, File> := map[];
    for i := 0 to |entries|
      invariant Positions(entries[..i], uploaded) == Some(imageMap)
    {
      var e := entries[i];
      assert entries[..i + 1][..i] == entries[..i];
      if e.fileName.value !in uploaded {
        PositionsExist(entries, uploaded);
        assert e.fileName.value in EntryNames(entries);
        return Err(BadRequest);
      }
      imageMap := imageMap[e.sortOrder := uploaded[e.fileName.value]];
    }
    assert entries[..|entries|] == entries;
    return Ok(imageMap);
  }

  /** The loop over the names seen so far. */
  method CheckNames(entries: seq<Entry>) returns (ok: bool)
    requires forall i :: 0 <= i < |entries| ==> Adds(entries[i])
    ensures ok <==> NamesOnce(entries)
  {
    var seen: set<string> := {};
    for i := 0 to |entries|
      invariant forall x :: x in seen <==> exists k :: 0 <= k < i && entries[k].fileName == Some(x)
      invariant forall a, b :: 0 <= a < b < i ==> entries[a].fileName != entries[b].fileName
    {
      var name := entries[i].fileName.value;
      if name in seen {
        var k :| 0 <= k < i && entries[k].fileName == Some(name);
        assert entries[k].fileName == entries[i].fileName;
        return false;
      }
      forall a | 0 <= a < i ensures entries[a].fileName != entries[i].fileName {
        assert entries[a].fileName.value in seen;
      }
      seen := seen + {name};
    }
    return true;
  }

  method IndexFiles(files: seq<File>) returns (r: Result<map<string, File>, Error>)
    ensures r.Ok? <==> FilesOnce(files)
    ensures r.Ok? ==> Indexes(r.value, files)
  {
    var uploaded: map<string, File> := map[];
    for i := 0 to |files|
      invariant uploaded.Keys == FileNames(files[..i])
      invariant forall x :: x in uploaded ==> uploaded[x].name == x && uploaded[x] in files
      invariant forall a, b :: 0 <= a < b < i ==> files[a].name != files[b].name
    {
      if files[i].name in uploaded {
        var k :| 0 <= k < i && files[..i][k].name == files[i].name;
        assert files[k].name == files[i].name;
        return Err(BadRequest);
      }
      forall a | 0 <= a < i ensures files[a].name != files[i].name {
        assert files[..i][a] == files[a] && files[a].name in FileNames(files[..i]);
      }
      uploaded := uploaded[files[i].name := files[i]];
      assert FileNames(files[..i + 1]) == FileNames(files[..i]) + {files[i].name} by {
        forall a | 0 <= a < i ensures files[..i + 1][a] == files[..i][a] {
        }
        assert files[..i + 1][i] == files[i];
      }
    }
    assert files[..|files|] == files;
    return Ok(uploaded);
  }
}
