/** Variant images: grouping signature rows by product and image, and the most specific match. */
module VariantImages {
  import opened Wrappers

  type Id = nat

  /** One row of the join of variant images, their metadata and their signatures. */
  datatype Row = Row(product: Id, imageId: Id, imageKey: string, dimension: string, value: string, orphan: bool)

  datatype Image = Image(imageId: Id, imageKey: string, signatures: map<string, string>)

  datatype Choice = Choice(dimension: string, value: string)

  // Grouping.

  function IndexOf(images: seq<Image>, key: string): (i: nat)
    ensures i <= |images|
    ensures i < |images| ==> images[i].imageKey == key
    ensures forall j :: 0 <= j < i ==> images[j].imageKey != key
  {
    if images == [] then 0 else if images[0].imageKey == key then 0 else 1 + IndexOf(images[1..], key)
  }

  function AddRow(images: seq<Image>, r: Row): seq<Image> {
    var i := IndexOf(images, r.imageKey);
    if i < |images| then images[i := images[i].(signatures := images[i].signatures[r.dimension := r.value])]
    else images + [Image(r.imageId, r.imageKey, map[r.dimension := r.value])]
  }

  /** The images of one product, from its rows. */
  function BuildImages(rows: seq<Row>): seq<Image> {
    if rows == [] then [] else AddRow(BuildImages(rows[..|rows| - 1]), rows[|rows| - 1])
  }

  function ImagesOf(images: map<Id, seq<Image>>, p: Id): seq<Image> {
    if p in images then images[p] else []
  }

  function AddToMap(images: map<Id, seq<Image>>, r: Row): map<Id, seq<Image>> {
    images[r.product := AddRow(ImagesOf(images, r.product), r)]
  }

  /** The images of many products, from their rows together. */
  function BuildAll(rows: seq<Row>): map<Id, seq<Image>> {
    if rows == [] then map[] else AddToMap(BuildAll(rows[..|rows| - 1]), rows[|rows| - 1])
  }

  /** Find the image of the row, or push a new one, and set its signature for the row's dimension. */
  method AddSignature(images: seq<Image>, r: Row) returns (list: seq<Image>)
    ensures list == AddRow(images, r)
  {
    list := images;
    var at := IndexOf(list, r.imageKey);
    if at == |list| {
      list := list + [Image(r.imageId, r.imageKey, map[])];
    }
    list := list[at := list[at].(signatures := list[at].signatures[r.dimension := r.value])];
  }

  /** One pass over the rows of many products, changing lists and signatures in place. */
  method BuildImageMap(rows: seq<Row>) returns (images: map<Id, seq<Image>>)
    ensures images == BuildAll(rows)
  {
    images := map[];
    for i := 0 to |rows|
      invariant images == BuildAll(rows[..i])
    {
      assert rows[..i + 1][..i] == rows[..i];
      var r := rows[i];
      if r.product !in images {
        images := images[r.product := []];
      }
      var list := AddSignature(images[r.product], r);
      images := images[r.product := list];
    }
    assert rows[..|rows|] == rows;
  }

  /** Building for many products at once gives each product what building from its own rows gives. */
  lemma {:induction false} BuildAllIsPerProduct(rows: seq<Row>, p: Id)
    ensures ImagesOf(BuildAll(rows), p) == BuildImages(OfProduct(rows, p))
  {
    if rows != [] {
      var n := |rows| - 1;
      BuildAllIsPerProduct(rows[..n], p);
      AddedLast(OfProduct(rows[..n], p), rows[n]);
      assert OfProduct(rows[..n], p) + [] == OfProduct(rows[..n], p);
    }
  }

  /** The rows of one product, in order. */
  function OfProduct(rows: seq<Row>, p: Id): seq<Row> {
    if rows == [] then []
    else
      var n := |rows| - 1;
      OfProduct(rows[..n], p) + if rows[n].product == p then [rows[n]] else []
  }

  lemma AddedLast(rows: seq<Row>, r: Row)
    ensures BuildImages(rows + [r]) == AddRow(BuildImages(rows), r)
  {
    assert (rows + [r])[..|rows|] == rows;
  }

  // What the grouping means.

  /** The last row for the image and the dimension, or -1. */
  function LastRow(rows: seq<Row>, key: string, dimension: string): (k: int)
    ensures -1 <= k < |rows|
    ensures k >= 0 ==> rows[k].imageKey == key && rows[k].dimension == dimension
    ensures forall j :: k < j < |rows| ==> rows[j].imageKey != key || rows[j].dimension != dimension
  {
    if rows == [] then -1
    else if rows[|rows| - 1].imageKey == key && rows[|rows| - 1].dimension == dimension then |rows| - 1
    else LastRow(rows[..|rows| - 1], key, dimension)
  }

  ghost predicate KeysDiffer(images: seq<Image>) {
    forall i, j :: 0 <= i < j < |images| ==> images[i].imageKey != images[j].imageKey
  }

  /** The image's signature is, for each dimension, the value of the last row that gives it one. */
  ghost predicate SignedBy(rows: seq<Row>, image: Image) {
    forall d :: (d in image.signatures <==> LastRow(rows, image.imageKey, d) >= 0)
      && (d in image.signatures ==> image.signatures[d] == rows[LastRow(rows, image.imageKey, d)].value)
  }

  ghost predicate EachRowHasImage(rows: seq<Row>, images: seq<Image>) {
    forall i :: 0 <= i < |rows| ==> HasImage(images, rows[i].imageKey)
  }

  ghost predicate HasImage(images: seq<Image>, key: string) {
    exists k :: 0 <= k < |images| && images[k].imageKey == key
  }

  lemma AddRowKeepsKeys(images: seq<Image>, r: Row, key: string)
    requires KeysDiffer(images)
    ensures KeysDiffer(AddRow(images, r))
    ensures HasImage(AddRow(images, r), key) <==> HasImage(images, key) || key == r.imageKey
  {
    var after := AddRow(images, r);
    if key == r.imageKey {
      assert after[IndexOf(images, r.imageKey)].imageKey == key;
    } else if HasImage(images, key) {
      var k :| 0 <= k < |images| && images[k].imageKey == key;
      assert after[k].imageKey == key;
    } else {
      assert forall k :: 0 <= k < |images| ==> after[k].imageKey == images[k].imageKey;
    }
  }

  /** There is one image for each image key in the rows, and it is signed by the rows. */
  lemma {:induction false} ImagesMeaning(rows: seq<Row>)
    ensures KeysDiffer(BuildImages(rows)) && EachRowHasImage(rows, BuildImages(rows))
    ensures forall i :: 0 <= i < |BuildImages(rows)| ==> SignedBy(rows, BuildImages(rows)[i])
  {
    if rows != [] {
      var n := |rows| - 1;
      var before := BuildImages(rows[..n]);
      ImagesMeaning(rows[..n]);
      forall i | 0 <= i < |rows| ensures HasImage(BuildImages(rows), rows[i].imageKey) {
        AddRowKeepsKeys(before, rows[n], rows[i].imageKey);
        assert i < n ==> rows[..n][i] == rows[i];
      }
      AddRowKeepsKeys(before, rows[n], rows[n].imageKey);
      forall i | 0 <= i < |BuildImages(rows)| ensures SignedBy(rows, BuildImages(rows)[i]) {
        AddRowSigns(rows, before, i);
      }
    }
  }

  lemma LastRowNext(rows: seq<Row>, r: Row, key: string, d: string)
    ensures LastRow(rows + [r], key, d) == if r.imageKey == key && r.dimension == d then |rows|
      else LastRow(rows, key, d)
  {
    assert (rows + [r])[..|rows|] == rows;
  }

  /** One more row keeps the signature of another image and adds its value to its own image's. */
  lemma SignedNext(rows: seq<Row>, r: Row, image: Image)
    requires SignedBy(rows, image)
    ensures SignedBy(rows + [r], if r.imageKey == image.imageKey
      then image.(signatures := image.signatures[r.dimension := r.value]) else image)
  {
    forall d ensures LastRow(rows + [r], image.imageKey, d)
      == if r.imageKey == image.imageKey && r.dimension == d then |rows| else LastRow(rows, image.imageKey, d)
    {
      LastRowNext(rows, r, image.imageKey, d);
    }
  }

  lemma NewImageSigned(rows: seq<Row>, r: Row)
    requires forall j :: 0 <= j < |rows| ==> rows[j].imageKey != r.imageKey
    ensures SignedBy(rows + [r], Image(r.imageId, r.imageKey, map[r.dimension := r.value]))
  {
    var unsigned := Image(r.imageId, r.imageKey, map[]);
    assert SignedBy(rows, unsigned);
    SignedNext(rows, r, unsigned);
  }

  lemma AddRowSigns(rows: seq<Row>, before: seq<Image>, i: nat)
    requires rows != [] && i < |AddRow(before, rows[|rows| - 1])|
    requires KeysDiffer(before) && forall j :: 0 <= j < |before| ==> SignedBy(rows[..|rows| - 1], before[j])
    requires EachRowHasImage(rows[..|rows| - 1], before)
    ensures SignedBy(rows, AddRow(before, rows[|rows| - 1])[i])
  {
    var n := |rows| - 1;
    assert rows == rows[..n] + [rows[n]];
    if i < |before| {
      SignedNext(rows[..n], rows[n], before[i]);
    } else {
      forall j | 0 <= j < n ensures rows[..n][j].imageKey != rows[n].imageKey {
        assert HasImage(before, rows[..n][j].imageKey);
      }
      NewImageSigned(rows[..n], rows[n]);
    }
  }

  /** The id of an image is that of the first row with its key. */
  ghost predicate NamedByFirst(rows: seq<Row>, image: Image) {
    exists i :: 0 <= i < |rows| && FirstOfKey(rows, i) && rows[i].imageKey == image.imageKey
      && image.imageId == rows[i].imageId
  }

  ghost predicate FirstOfKey(rows: seq<Row>, i: nat)
    requires i < |rows|
  {
    forall j :: 0 <= j < i ==> rows[j].imageKey != rows[i].imageKey
  }

  lemma NamedStays(rows: seq<Row>, r: Row, image: Image)
    requires NamedByFirst(rows, image)
    ensures forall signatures :: NamedByFirst(rows + [r], image.(signatures := signatures))
  {
    var i :| 0 <= i < |rows| && FirstOfKey(rows, i) && rows[i].imageKey == image.imageKey
      && image.imageId == rows[i].imageId;
    assert forall j :: 0 <= j <= i ==> (rows + [r])[j] == rows[j];
    assert FirstOfKey(rows + [r], i);
  }

  lemma {:induction false} ImagesAreNamedByFirst(rows: seq<Row>)
    ensures forall i :: 0 <= i < |BuildImages(rows)| ==> NamedByFirst(rows, BuildImages(rows)[i])
  {
    if rows != [] {
      var n := |rows| - 1;
      var before := BuildImages(rows[..n]);
      assert rows == rows[..n] + [rows[n]];
      ImagesAreNamedByFirst(rows[..n]);
      ImagesMeaning(rows[..n]);
      forall i | 0 <= i < |BuildImages(rows)| ensures NamedByFirst(rows, BuildImages(rows)[i]) {
        if i < |before| {
          NamedStays(rows[..n], rows[n], before[i]);
          assert BuildImages(rows)[i] == before[i].(signatures := BuildImages(rows)[i].signatures);
        } else {
          forall j | 0 <= j < n ensures rows[j].imageKey != rows[n].imageKey {
            assert rows[..n][j] == rows[j] && HasImage(before, rows[..n][j].imageKey);
          }
          assert FirstOfKey(rows, n);
        }
      }
    }
  }

  /** There is an image with a key exactly when some row has it. */
  lemma {:induction false} ImageForEachKey(rows: seq<Row>, key: string)
    ensures HasImage(BuildImages(rows), key) <==> exists i :: 0 <= i < |rows| && rows[i].imageKey == key
  {
    if rows != [] {
      var n := |rows| - 1;
      ImageForEachKey(rows[..n], key);
      ImagesMeaning(rows[..n]);
      AddRowKeepsKeys(BuildImages(rows[..n]), rows[n], key);
      if i :| 0 <= i < n && rows[i].imageKey == key {
        assert rows[..n][i].imageKey == key;
      }
    }
  }

  // The best match.

  function Normalized(snapshot: seq<Choice>, lower: string -> string): map<string, string> {
    if snapshot == [] then map[]
    else
      var n := |snapshot| - 1;
      Normalized(snapshot[..n], lower)[lower(snapshot[n].dimension) := lower(snapshot[n].value)]
  }

  /** Choice i is the last whose dimension in lower case is d. */
  ghost predicate LastWith(snapshot: seq<Choice>, lower: string -> string, d: string, i: nat) {
    && i < |snapshot| && lower(snapshot[i].dimension) == d
    && forall j :: i < j < |snapshot| ==> lower(snapshot[j].dimension) != d
  }

  lemma LastWithNext(snapshot: seq<Choice>, lower: string -> string, d: string, c: Choice, i: nat)
    requires LastWith(snapshot, lower, d, i) && lower(c.dimension) != d
    ensures LastWith(snapshot + [c], lower, d, i)
  {
  }

  /** A dimension is in the normalised snapshot exactly when a choice has it in lower case, and then the
      last such choice gives its value, in lower case. */
  lemma {:induction false} NormalizedMeaning(snapshot: seq<Choice>, lower: string -> string, d: string)
    ensures d in Normalized(snapshot, lower) ==>
      exists i: nat :: LastWith(snapshot, lower, d, i) && Normalized(snapshot, lower)[d] == lower(snapshot[i].value)
    ensures d !in Normalized(snapshot, lower) ==>
      forall i :: 0 <= i < |snapshot| ==> lower(snapshot[i].dimension) != d
  {
    if snapshot != [] {
      var n := |snapshot| - 1;
      var rest := snapshot[..n];
      assert snapshot == rest + [snapshot[n]];
      NormalizedMeaning(rest, lower, d);
      if lower(snapshot[n].dimension) == d {
        assert LastWith(snapshot, lower, d, n);
      } else if d in Normalized(rest, lower) {
        var i: nat :| LastWith(rest, lower, d, i) && Normalized(rest, lower)[d] == lower(rest[i].value);
        LastWithNext(rest, lower, d, snapshot[n], i);
      }
    }
  }

  ghost predicate Matches(image: Image, chosen: map<string, string>) {
    forall d :: d in image.signatures ==> d in chosen && chosen[d] == image.signatures[d]
  }

  /** The earliest of the matching images with the most signature entries. */
  ghost predicate Best(images: seq<Image>, chosen: map<string, string>, i: nat) {
    && i < |images| && Matches(images[i], chosen)
    && forall j :: 0 <= j < |images| && Matches(images[j], chosen) ==>
         |images[j].signatures| <= |images[i].signatures| && (j < i ==> |images[j].signatures| < |images[i].signatures|)
  }

  /** Among the first i images, at is the best match, or there is none. */
  ghost predicate BestSoFar(images: seq<Image>, chosen: map<string, string>, i: nat, found: bool, at: nat)
    requires i <= |images|
  {
    if found then
      && at < i && Matches(images[at], chosen)
      && forall j :: 0 <= j < i && Matches(images[j], chosen) ==>
           |images[j].signatures| <= |images[at].signatures|
             && (j < at ==> |images[j].signatures| < |images[at].signatures|)
    else forall j :: 0 <= j < i ==> !Matches(images[j], chosen)
  }

  method NormalizeSnapshot(snapshot: seq<Choice>, lower: string -> string) returns (normalized: map<string, string>)
    ensures normalized == Normalized(snapshot, lower)
  {
    normalized := map[];
    for i := 0 to |snapshot|
      invariant normalized == Normalized(snapshot[..i], lower)
    {
      assert snapshot[..i + 1][..i] == snapshot[..i];
      normalized := normalized[lower(snapshot[i].dimension) := lower(snapshot[i].value)];
    }
    assert snapshot[..|snapshot|] == snapshot;
  }

  /** The inner loop over the entries of one signature, in any order. */
  method Score(image: Image, chosen: map<string, string>) returns (matched: bool, score: nat)
    ensures matched <==> Matches(image, chosen)
    ensures matched ==> score == |image.signatures|
  {
    score := 0;
    var rest := image.signatures.Keys;
    while rest != {}
      invariant rest <= image.signatures.Keys && score + |rest| == |image.signatures.Keys|
      invariant forall d :: d in image.signatures && d !in rest ==> d in chosen && chosen[d] == image.signatures[d]
    {
      var d :| d in rest;
      if d !in chosen || chosen[d] != image.signatures[d] {
        return false, score;
      }
      score := score + 1;
      rest := rest - {d};
    }
    assert |image.signatures.Keys| == |image.signatures|;
    return true, score;
  }

  method FindBestImage(
      images: seq<Image>, snapshot: seq<Choice>, lower: string -> string)
      returns (best: Option<(Id, string)>, ghost at: nat)
    ensures best.None? ==> forall i :: 0 <= i < |images| ==> !Matches(images[i], Normalized(snapshot, lower))
    ensures best.Some? ==>
      Best(images, Normalized(snapshot, lower), at) && best.value == (images[at].imageId, images[at].imageKey)
  {
    at := 0;
    if |images| == 0 {
      return None, at;
    }
    var chosen := NormalizeSnapshot(snapshot, lower);
    var bestImage: Option<Image> := None;
    var bestScore := 0;
    for i := 0 to |images|
      invariant BestSoFar(images, chosen, i, bestImage.Some?, at)
      invariant bestImage.Some? ==> bestImage.value == images[at] && bestScore == |images[at].signatures|
    {
      var matched, score := Score(images[i], chosen);
      if matched && (bestImage.None? || score > bestScore) {
        bestImage, bestScore, at := Some(images[i]), score, i;
      }
    }
    best := if bestImage.Some? then Some((bestImage.value.imageId, bestImage.value.imageKey)) else None;
  }

  /** The best match is unique: at most one position satisfies it. */
  lemma BestIsUnique(images: seq<Image>, chosen: map<string, string>, i: nat, j: nat)
    requires Best(images, chosen, i) && Best(images, chosen, j)
    ensures i == j
  {
  }
}
