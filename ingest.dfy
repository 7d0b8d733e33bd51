/** addItem as a transition of the whole store: the image writes, then the
    category find-or-create, then the item row, each failure returning before
    any later step runs. The I/O failures are inputs (AddFaults). */
module Ingest {
  import opened Types
  import opened Numerals
  import opened SqlLike
  import opened Images
  import opened Categories
  import opened Queries

  /** The image directory and the two tables. */
  datatype Store = Store(images: map<string, Bytes>, categories: seq<Category>, items: seq<ItemRow>)

  /** Which external call of addItem fails, if any. */
  datatype AddFaults = AddFaults(
    uploadSave: SaveFault,      // saveImage to images/<original filename>
    openFails: bool,            // image.Open before hashing
    hashFails: bool,            // io.Copy into the SHA-256 state
    hashedSave: SaveFault,      // saveImage to images/<hash>.jpg
    dbOpenFails: bool,          // sql.Open
    lookupFails: bool,          // the category lookup fails other than with "no rows"
    categoryInsertFails: bool,  // INSERT INTO categories
    prepareFails: bool,         // db.Prepare of INSERT INTO items
    itemInsertFails: bool)      // stmt.Exec of INSERT INTO items

  const NoFaults: AddFaults := AddFaults(NoFault, false, false, NoFault, false, false, false, false, false)

  /** What addItem binds to items.category_id: the submitted category string,
      as the handler does, or the resolved category id, as the join needs. */
  datatype CategoryColumn = SubmittedName | ResolvedId

  function CategoryValue(col: CategoryColumn, submitted: string, id: int): string {
    match col
    case SubmittedName => submitted
    case ResolvedId => Decimal(id)
  }

  /** Lines 54-91 of addItem: the image writes. The name the upload is stored
      under, or the error, and the image directory afterwards. The upload is
      first saved under its own name (`f.uploadSave` is how that write would
      end on a file path), then under the content-derived name. */
  function StoreUpload(digest: Bytes -> string, images: map<string, Bytes>, image: Option<Upload>, f: AddFaults)
    : (r: (Result<string>, map<string, Bytes>))
    ensures image.None? ==> r == (Err(ImageFormFile), images)
    ensures r.0.Ok? <==>
      && image.Some? && !NamesDirectory(image.value.filename)
      && f.uploadSave == NoFault && !f.openFails && !f.hashFails && f.hashedSave == NoFault
    ensures r.0.Err? ==> r.0.error in {ImageFormFile, ImageSave, ImageOpen, ImageHash}
    ensures r.0.Ok? ==>
      && r.0.value == digest(image.value.data) + JpgSuffix
      && r.0.value in r.1 && r.1[r.0.value] == image.value.data
      && image.value.filename in r.1 && r.1[image.value.filename] == image.value.data
    ensures image.Some? && NamesDirectory(image.value.filename) ==> r == (Err(ImageSave), images)
    // The steps in order, each failure returning what it reports and the
    // directory as the writes so far left it.
    ensures image.Some? && !NamesDirectory(image.value.filename) ==>
      var up := image.value;
      var uploaded := images[up.filename := up.data];
      var name := digest(up.data) + JpgSuffix;
      && (f.uploadSave != NoFault ==>
            r == (Err(ImageSave), SaveImage(images, up.filename, up.data, f.uploadSave).1))
      && (f.uploadSave == NoFault && f.openFails ==> r == (Err(ImageOpen), uploaded))
      && (f.uploadSave == NoFault && !f.openFails && f.hashFails ==> r == (Err(ImageHash), uploaded))
      && (f.uploadSave == NoFault && !f.openFails && !f.hashFails && f.hashedSave != NoFault ==>
            r == (Err(ImageSave), SaveImage(uploaded, name, up.data, f.hashedSave).1))
      && (r.0.Ok? ==> r.1 == uploaded[name := up.data])
  {
    match image
    case None => (Err(ImageFormFile), images)
    case Some(up) =>
      var (saved, images1) := SaveImage(images, up.filename, up.data, UploadFault(up.filename, f.uploadSave));
      if !saved then (Err(ImageSave), images1)
      else if f.openFails then (Err(ImageOpen), images1)
      else if f.hashFails then (Err(ImageHash), images1)
      else
        var imageName := ImageName(digest, up.data);
        var (stored, images2) := SaveImage(images1, imageName, up.data, f.hashedSave);
        if !stored then (Err(ImageSave), images2)
        else (Ok(imageName), images2)
  }

  /** The two tables. */
  datatype Tables = Tables(categories: seq<Category>, items: seq<ItemRow>)

  /** Lines 94-136 of addItem: the database steps once the image is stored
      under `imageName`. The reply and the tables afterwards. */
  function Record(t: Tables, req: AddRequest, imageName: string, f: AddFaults, col: CategoryColumn)
    : (r: (Result<Item>, Tables))
    ensures r.0.Ok? <==>
      && !f.dbOpenFails && ResolveCategory(t.categories, req.category, f.lookupFails, f.categoryInsertFails).Ok?
      && !f.prepareFails && !f.itemInsertFails
    ensures r.0.Err? ==> r.1.items == t.items
    ensures r.0.Err? && r.0.error in {DatabaseOpen, CategoryQuery, CategoryInsert} ==> r.1 == t
    // The steps in order: the database open, find-or-create (whose new row is
    // kept by a later failure), the prepare, the insert.
    ensures f.dbOpenFails ==> r == (Err(DatabaseOpen), t)
    ensures !f.dbOpenFails && f.lookupFails ==> r == (Err(CategoryQuery), t)
    ensures !f.dbOpenFails ==>
      match ResolveCategory(t.categories, req.category, f.lookupFails, f.categoryInsertFails)
      case Err(e) => r == (Err(e), t)
      case Ok(resolved) =>
        && r.1.categories == resolved.categories
        && (f.prepareFails ==> r == (Err(PrepareStatement), Tables(resolved.categories, t.items)))
        && (!f.prepareFails && f.itemInsertFails ==> r == (Err(ItemInsert), Tables(resolved.categories, t.items)))
    ensures r.0.Ok? ==>
      && r.0.value == Item(req.name, req.category, imageName)
      && |r.1.items| == |t.items| + 1 && r.1.items[..|t.items|] == t.items
      && r.1.items[|t.items|].name == req.name && r.1.items[|t.items|].imageName == imageName
      && (forall k :: 0 <= k < |t.items| ==> t.items[k].id < r.1.items[|t.items|].id)
  {
    if f.dbOpenFails then (Err(DatabaseOpen), t)
    else match ResolveCategory(t.categories, req.category, f.lookupFails, f.categoryInsertFails)
      case Err(e) => (Err(e), t)
      case Ok(resolved) =>
        var t1 := t.(categories := resolved.categories);
        if f.prepareFails then (Err(PrepareStatement), t1)
        else if f.itemInsertFails then (Err(ItemInsert), t1)
        else
          var ids := ItemIds(t.items);
          var row := ItemRow(NextRowId(ids), req.name,
                             CategoryValue(col, req.category, resolved.id), imageName);
          assert forall k :: 0 <= k < |t.items| ==> t.items[k].id < row.id by {
            forall k | 0 <= k < |t.items| ensures t.items[k].id < row.id {
              assert ids[k] == t.items[k].id;
            }
          }
          assert (t.items + [row])[..|t.items|] == t.items;
          (Ok(Item(req.name, req.category, imageName)), t1.(items := t.items + [row]))
  }

  /** addItem: the reply and the store afterwards. The handler as written
      binds SubmittedName. */
  function Submit(digest: Bytes -> string, s: Store, req: AddRequest, f: AddFaults, col: CategoryColumn)
    : (r: (Result<Item>, Store))
    ensures r.0 == Err(ImageFormFile) <==> req.image.None?
    ensures req.image.None? ==> r.1 == s
    ensures r.0.Err? ==> r.1.items == s.items
    ensures r.0.Ok? ==>
      && req.image.Some?
      && r.0.value == Item(req.name, req.category, digest(req.image.value.data) + JpgSuffix)
      && |r.1.items| == |s.items| + 1 && r.1.items[..|s.items|] == s.items
      && r.1.images == s.images[req.image.value.filename := req.image.value.data]
                                [digest(req.image.value.data) + JpgSuffix := req.image.value.data]
  {
    var (stored, images) := StoreUpload(digest, s.images, req.image, f);
    match stored
    case Err(e) => (Err(e), s.(images := images))
    case Ok(imageName) =>
      var (r, t) := Record(Tables(s.categories, s.items), req, imageName, f, col);
      (r, Store(images, t.categories, t.items))
  }

  /** The store is written only through these steps, in this order: addItem
      succeeds exactly when none of them fails (a failed category insert
      matters only when the name has no row). */
  lemma SubmitSucceedsIff(digest: Bytes -> string, s: Store, req: AddRequest, f: AddFaults, col: CategoryColumn)
    ensures Submit(digest, s, req, f, col).0.Ok? <==>
      && req.image.Some? && !NamesDirectory(req.image.value.filename)
      && f.uploadSave == NoFault && !f.openFails && !f.hashFails && f.hashedSave == NoFault
      && !f.dbOpenFails && !f.lookupFails
      && (f.categoryInsertFails ==> exists k :: 0 <= k < |s.categories| && s.categories[k].name == req.category)
      && !f.prepareFails && !f.itemInsertFails
  {
    if FindCategory(s.categories, req.category).Some? {
      var k := FindCategory(s.categories, req.category).value;
      assert s.categories[k].name == req.category;
    }
  }

  /** addItem returns at its first failing step, in the order of lines
      64-132, with that step's error; the image directory holds the writes
      made so far, and a find-or-create that succeeded keeps its new row when
      the prepare or the insert then fails. */
  lemma SubmitFirstFault(digest: Bytes -> string, s: Store, req: AddRequest, f: AddFaults, col: CategoryColumn)
    requires req.image.Some? && !NamesDirectory(req.image.value.filename)
    ensures var (r, after) := Submit(digest, s, req, f, col);
      var up := req.image.value;
      var uploaded := s.images[up.filename := up.data];
      var stored := uploaded[digest(up.data) + JpgSuffix := up.data];
      && (f.uploadSave != NoFault ==>
            r == Err(ImageSave) && after.categories == s.categories && after.items == s.items)
      && (f.uploadSave == NoFault && f.openFails ==> r == Err(ImageOpen) && after == s.(images := uploaded))
      && (f.uploadSave == NoFault && !f.openFails && f.hashFails ==>
            r == Err(ImageHash) && after == s.(images := uploaded))
      && (f.uploadSave == NoFault && !f.openFails && !f.hashFails && f.hashedSave != NoFault ==>
            r == Err(ImageSave) && after.categories == s.categories && after.items == s.items)
  {
  }

  /** Once both image files are written, the database steps follow in order:
      the open, find-or-create, the prepare, the insert. */
  lemma SubmitFirstDatabaseFault(digest: Bytes -> string, s: Store, req: AddRequest, f: AddFaults, col: CategoryColumn)
    requires req.image.Some? && !NamesDirectory(req.image.value.filename)
    requires f.uploadSave == NoFault && !f.openFails && !f.hashFails && f.hashedSave == NoFault
    ensures var (r, after) := Submit(digest, s, req, f, col);
      var up := req.image.value;
      var stored := s.images[up.filename := up.data][digest(up.data) + JpgSuffix := up.data];
      var resolved := ResolveCategory(s.categories, req.category, f.lookupFails, f.categoryInsertFails);
      && after.images == stored
      && (f.dbOpenFails ==> r == Err(DatabaseOpen) && after == s.(images := stored))
      && (!f.dbOpenFails && f.lookupFails ==> r == Err(CategoryQuery) && after == s.(images := stored))
      && (!f.dbOpenFails && resolved.Err? ==> r == Err(resolved.error) && after == s.(images := stored))
      && (!f.dbOpenFails && resolved.Ok? ==>
            && after.categories == resolved.value.categories
            && (f.prepareFails ==> r == Err(PrepareStatement) && after.items == s.items)
            && (!f.prepareFails && f.itemInsertFails ==> r == Err(ItemInsert) && after.items == s.items))
  {
  }

  /** A missing image changes nothing; a failure before the category step
      (saving, reopening or hashing the image, opening the database) leaves
      both tables unchanged. */
  lemma SubmitEarlyFailureLeavesTables(digest: Bytes -> string, s: Store, req: AddRequest, f: AddFaults, col: CategoryColumn)
    ensures var (r, after) := Submit(digest, s, req, f, col);
      && (r == Err(ImageFormFile) ==> after == s)
      && (r.Err? && r.error in {ImageFormFile, ImageSave, ImageOpen, ImageHash, DatabaseOpen} ==>
            after.categories == s.categories && after.items == s.items)
  {
  }

  /** A failed category lookup or insert aborts addItem: no item row is added
      and the categories table is unchanged. */
  lemma SubmitCategoryFailure(digest: Bytes -> string, s: Store, req: AddRequest, f: AddFaults, col: CategoryColumn)
    ensures var (r, after) := Submit(digest, s, req, f, col);
      r == Err(CategoryQuery) || r == Err(CategoryInsert) ==>
        after.categories == s.categories && after.items == s.items
  {
  }

  /** No failure of addItem adds an item row. */
  lemma SubmitFailureAddsNoItem(digest: Bytes -> string, s: Store, req: AddRequest, f: AddFaults, col: CategoryColumn)
    ensures var (r, after) := Submit(digest, s, req, f, col);
      r.Err? ==> after.items == s.items
  {
  }

  /** A successful addItem appends exactly one item row, with a fresh id, the
      submitted name and category string and the content-derived image name;
      the categories table is the find-or-create result; both image files hold
      the uploaded bytes; the reply echoes the three values. */
  lemma SubmitSuccess(digest: Bytes -> string, s: Store, req: AddRequest, f: AddFaults)
    requires Submit(digest, s, req, f, SubmittedName).0.Ok?
    ensures req.image.Some?
    ensures var (r, after) := Submit(digest, s, req, f, SubmittedName);
      var up := req.image.value;
      var imageName := digest(up.data) + ".jpg";
      && r.value == Item(req.name, req.category, imageName)
      && |after.items| == |s.items| + 1
      && after.items[..|s.items|] == s.items
      && after.items[|s.items|].name == req.name
      && after.items[|s.items|].categoryRef == req.category
      && after.items[|s.items|].imageName == imageName
      && (forall k :: 0 <= k < |s.items| ==> s.items[k].id < after.items[|s.items|].id)
      && after.categories == ResolveCategory(s.categories, req.category, false, false).value.categories
      && imageName in after.images && after.images[imageName] == up.data
      && up.filename in after.images && after.images[up.filename] == up.data
  {
    var (r, after) := Submit(digest, s, req, f, SubmittedName);
    var ids := ItemIds(s.items);
    forall k | 0 <= k < |s.items| ensures s.items[k].id < NextRowId(ids) {
      assert ids[k] == s.items[k].id;
    }
    assert after.items[..|s.items|] == s.items;
  }

  /** An upload whose file name makes path.Join(ImgDir, name) a directory
      fails in saveImage (at os.Create, or earlier at file.Open): addItem
      replies ImageSave and changes nothing. */
  lemma UploadToDirectoryFails(digest: Bytes -> string, s: Store, req: AddRequest, f: AddFaults, col: CategoryColumn)
    requires req.image.Some? && NamesDirectory(req.image.value.filename)
    ensures var (r, after) := Submit(digest, s, req, f, col);
      r == Err(ImageSave) && after == s
  {
  }

  /** Beyond naming a directory or not, the stored name depends on the
      uploaded bytes only: two submissions that differ in the upload's file
      name get the same reply and leave the same tables, and a successful
      reply names the file digest + ".jpg". */
  lemma SubmitNamesImageByContent(digest: Bytes -> string, s: Store, req1: AddRequest, req2: AddRequest,
                                  f: AddFaults, col: CategoryColumn)
    requires req1.name == req2.name && req1.category == req2.category
    requires req1.image.Some? && req2.image.Some? && req1.image.value.data == req2.image.value.data
    requires NamesDirectory(req1.image.value.filename) <==> NamesDirectory(req2.image.value.filename)
    ensures var (r1, after1) := Submit(digest, s, req1, f, col);
      var (r2, after2) := Submit(digest, s, req2, f, col);
      && r1 == r2
      && after1.categories == after2.categories && after1.items == after2.items
      && (r1.Ok? ==> r1.value.imageName == digest(req1.image.value.data) + ".jpg")
  {
  }

  /** Submitting the same upload again rewrites both image files with the
      bytes they already hold, so the image directory does not change, and a
      second success echoes the first reply. */
  lemma ResubmitKeepsImages(digest: Bytes -> string, s: Store, req: AddRequest, f: AddFaults,
                            again: AddFaults, col: CategoryColumn)
    requires Submit(digest, s, req, f, col).0.Ok?
    requires again.uploadSave == NoFault && again.hashedSave == NoFault
    ensures var (r1, after1) := Submit(digest, s, req, f, col);
      var (r2, after2) := Submit(digest, after1, req, again, col);
      && after2.images == after1.images
      && (r2.Ok? ==> r2 == r1)
  {
    var (r1, after1) := Submit(digest, s, req, f, col);
    var up := req.image.value;
    var imageName := ImageName(digest, up.data);
    SaveSameBytesUnchanged(after1.images, up.filename, up.data);
    SaveSameBytesUnchanged(after1.images, imageName, up.data);
  }

  /** The image a successful addItem replies with is served by getImg from
      its own path, never replaced by the default image. */
  lemma StoredImageIsServed(digest: Bytes -> string, s: Store, req: AddRequest, f: AddFaults, col: CategoryColumn)
    requires Submit(digest, s, req, f, col).0.Ok?
    ensures var (r, after) := Submit(digest, s, req, f, col);
      ResolveImagePath(after.images, r.value.imageName) == Ok(ImgDir + "/" + r.value.imageName)
  {
    var (r, after) := Submit(digest, s, req, f, col);
    var imageName := ImageName(digest, req.image.value.data);
    assert r.value.imageName == imageName && imageName in after.images;
  }

  predicate IdsBelowMax(ids: seq<int>) {
    forall k :: 0 <= k < |ids| ==> MinInt64 <= ids[k] < MaxInt64
  }

  /** The next rowid of a table whose ids are below the int64 maximum is an
      int64. */
  lemma NextRowIdInRange(ids: seq<int>)
    requires IdsBelowMax(ids)
    ensures MinInt64 <= NextRowId(ids) <= MaxInt64
  {
    if ids != [] {
      var k :| 0 <= k < |ids| && NextRowId(ids) == ids[k] + 1;
    }
  }

  /** As written: an item submitted with a category that is not an integer
      literal joins no category, so searchItem results are those of the
      earlier rows and getItemsId of its id fails with a query error. */
  lemma SubmittedNameNeverJoins(digest: Bytes -> string, s: Store, req: AddRequest, f: AddFaults, keyword: string)
    requires Submit(digest, s, req, f, SubmittedName).0.Ok?
    requires ParseInt64(req.category).None?
    requires IdsBelowMax(ItemIds(s.items))
    ensures var after := Submit(digest, s, req, f, SubmittedName).1;
      && Search(after.items, after.categories, keyword) == Search(s.items, after.categories, keyword)
      && GetItemById(after.items, after.categories, Decimal(NextRowId(ItemIds(s.items))), false, false)
           == Err(ItemQuery)
  {
    var after := Submit(digest, s, req, f, SubmittedName).1;
    var id := NextRowId(ItemIds(s.items));
    var row := after.items[|s.items|];
    assert after.items == s.items + [row];
    NonNumericRefJoinsNothing(row, after.categories);
    SearchAfterAppend(s.items, after.categories, row, keyword);
    NextRowIdInRange(ItemIds(s.items));
    ParseInt64Decimal(id);
    forall j | j in Join(after.items, after.categories) ensures j.item.id != id {
      if j.item in s.items {
        var k :| 0 <= k < |s.items| && s.items[k] == j.item;
        assert ItemIds(s.items)[k] == j.item.id;
      }
    }
  }

  /** As written, for the example of two "fashion" shirts: the first upload
      succeeds, yet getItemsId("1") fails and searching "Shirt" finds nothing. */
  lemma FashionExample(digest: Bytes -> string)
    ensures var req := AddRequest("T-shirt", "fashion", Some(Upload("shirt.jpg", [0xFF])));
      var (r, after) := Submit(digest, Store(map[], [], []), req, NoFaults, SubmittedName);
      && r == Ok(Item("T-shirt", "fashion", digest([0xFF]) + ".jpg"))
      && GetItemById(after.items, after.categories, "1", false, false) == Err(ItemQuery)
      && Search(after.items, after.categories, "Shirt") == []
  {
    var req := AddRequest("T-shirt", "fashion", Some(Upload("shirt.jpg", [0xFF])));
    var s := Store(map[], [], []);
    assert ParseDecimal("fashion") == None by {
      assert !IsIntegerLiteral("fashion") by { assert !IsDigit('a'); }
    }
    SubmittedNameNeverJoins(digest, s, req, NoFaults, "Shirt");
    assert Decimal(1) == "1";
  }

  /** The id find-or-create resolves is an existing id or the next rowid, so
      on a table of int64 ids it is an int64; a row pairs it with the name. */
  lemma ResolvedIdInRange(cats: seq<Category>, name: string, insertFails: bool)
    requires UniqueIds(cats) && IdsBelowMax(CategoryIds(cats))
    requires ResolveCategory(cats, name, false, insertFails).Ok?
    ensures var resolved := ResolveCategory(cats, name, false, insertFails).value;
      && MinInt64 <= resolved.id <= MaxInt64
      && UniqueIds(resolved.categories)
      && exists c :: 0 <= c < |resolved.categories| && resolved.categories[c] == Category(resolved.id, name)
  {
    ResolveKeepsIdsUnique(cats, name, false, insertFails);
    if FindCategory(cats, name).Some? {
      var k := FindCategory(cats, name).value;
      assert CategoryIds(cats)[k] == cats[k].id;
    } else {
      NextRowIdInRange(CategoryIds(cats));
    }
  }

  /** The database steps with the resolved id bound: the new row is found by
      getItemsId with exactly the reply, and searchItem appends it. */
  lemma RecordResolvedIdIsFound(t: Tables, req: AddRequest, imageName: string, f: AddFaults, keyword: string)
    requires Record(t, req, imageName, f, ResolvedId).0.Ok?
    requires UniqueItemIds(t.items) && UniqueIds(t.categories)
    requires IdsBelowMax(ItemIds(t.items)) && IdsBelowMax(CategoryIds(t.categories))
    ensures var (r, after) := Record(t, req, imageName, f, ResolvedId);
      && GetItemById(after.items, after.categories, Decimal(NextRowId(ItemIds(t.items))), false, false) == r
      && Search(after.items, after.categories, keyword)
           == Search(t.items, after.categories, keyword)
              + (if Like(ContainsPattern(keyword), req.name) then [r.value] else [])
  {
    var (r, after) := Record(t, req, imageName, f, ResolvedId);
    var resolved := ResolveCategory(t.categories, req.category, false, f.categoryInsertFails).value;
    ResolvedIdInRange(t.categories, req.category, f.categoryInsertFails);
    var c :| 0 <= c < |after.categories| && after.categories[c] == Category(resolved.id, req.category);
    ParseInt64Decimal(resolved.id);
    var row := after.items[|t.items|];
    assert after.items == t.items + [row];
    var ids := ItemIds(t.items);
    forall k | 0 <= k < |t.items| ensures t.items[k].id < row.id {
      assert ids[k] == t.items[k].id;
    }
    NextRowIdInRange(ids);
    AppendedItemFound(t.items, after.categories, row, c, keyword);
  }

  /** Corrected: binding the resolved category id makes every successful
      submission retrievable: getItemsId of the new row's id replies with
      exactly what addItem replied, and searchItem adds it at the end of the
      results whenever its name matches. */
  lemma ResolvedIdIsFound(digest: Bytes -> string, s: Store, req: AddRequest, f: AddFaults, keyword: string)
    requires Submit(digest, s, req, f, ResolvedId).0.Ok?
    requires UniqueItemIds(s.items) && UniqueIds(s.categories)
    requires IdsBelowMax(ItemIds(s.items)) && IdsBelowMax(CategoryIds(s.categories))
    ensures var (r, after) := Submit(digest, s, req, f, ResolvedId);
      && GetItemById(after.items, after.categories, Decimal(NextRowId(ItemIds(s.items))), false, false) == r
      && Search(after.items, after.categories, keyword)
           == Search(s.items, after.categories, keyword)
              + (if Like(ContainsPattern(keyword), req.name) then [r.value] else [])
  {
    var imageName := StoreUpload(digest, s.images, req.image, f).0.value;
    RecordResolvedIdIsFound(Tables(s.categories, s.items), req, imageName, f, keyword);
  }
}
