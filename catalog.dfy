/** The handlers' shared state as one object: the image directory and the two
    tables, which addItem updates step by step and searchItem scans. */
module App {
  import opened Types
  import opened SqlLike
  import opened Images
  import opened Categories
  import opened Queries
  import opened Ingest

  /** The rows.Next loop of searchItem: step through the joined rows and keep,
      in order, the projections of those whose item name matches `pattern`. */
  method ScanRows(rows: seq<JoinedRow>, pattern: string) returns (found: seq<Item>)
    ensures found == SearchRows(rows, pattern)
  {
    found := [];
    var i := 0;
    while i < |rows|
      invariant 0 <= i <= |rows|
      invariant found == SearchRows(rows[..i], pattern)
    {
      SearchRowsStep(rows, i, pattern);
      var row := rows[i];
      if Like(pattern, row.item.name) {
        found := found + [Project(row)];
      }
      i := i + 1;
    }
    assert rows[..i] == rows;
  }

  class Catalog {
    /** hex.EncodeToString(sha256(data)), left uninterpreted. */
    const digest: Bytes -> string
    var images: map<string, Bytes>
    var categories: seq<Category>
    var items: seq<ItemRow>

    function State(): Store
      reads this
    {
      Store(images, categories, items)
    }

    constructor (digest: Bytes -> string, initial: Store)
      ensures this.digest == digest && State() == initial
    {
      this.digest := digest;
      images := initial.images;
      categories := initial.categories;
      items := initial.items;
    }

    /** saveImage(file, images/<name>). */
    method SaveImage(name: string, data: Bytes, fault: SaveFault) returns (ok: bool)
      modifies this`images
      ensures (ok, images) == Images.SaveImage(old(images), name, data, fault)
    {
      match fault
      case NoFault =>
        images := images[name := data];
        ok := true;
      case OpenFails =>
        ok := false;
      case CreateFails =>
        ok := false;
      case CopyFails(copied) =>
        images := images[name := data[..if copied < |data| then copied else |data|]];
        ok := false;
    }

    /** The category find-or-create of addItem; the id it goes on with. */
    method ResolveCategory(name: string, lookupFails: bool, insertFails: bool) returns (r: Result<int>)
      modifies this`categories
      ensures match Categories.ResolveCategory(old(categories), name, lookupFails, insertFails)
        case Ok(resolved) => r == Ok(resolved.id) && categories == resolved.categories
        case Err(e) => r == Err(e) && categories == old(categories)
    {
      if lookupFails {
        return Err(CategoryQuery);
      }
      var found := FindCategory(categories, name);
      if found.Some? {
        return Ok(categories[found.value].id);
      }
      if insertFails {
        return Err(CategoryInsert);
      }
      var id := NextRowId(CategoryIds(categories));
      categories := categories + [Category(id, name)];
      return Ok(id);
    }

    /** addItem: the image writes, then the category, then the item row, each
        failure returning at once. The row's category_id receives the
        submitted category string. */
    method AddItem(req: AddRequest, f: AddFaults) returns (r: Result<Item>)
      modifies this`images, this`categories, this`items
      ensures (r, State()) == Submit(digest, old(State()), req, f, SubmittedName)
    {
      if req.image.None? {
        return Err(ImageFormFile);
      }
      var up := req.image.value;
      var ok := SaveImage(up.filename, up.data, UploadFault(up.filename, f.uploadSave));
      if !ok {
        return Err(ImageSave);
      }
      if f.openFails {
        return Err(ImageOpen);
      }
      if f.hashFails {
        return Err(ImageHash);
      }
      var imageName := ImageName(digest, up.data);
      ok := SaveImage(imageName, up.data, f.hashedSave);
      if !ok {
        return Err(ImageSave);
      }
      if f.dbOpenFails {
        return Err(DatabaseOpen);
      }
      var categoryId := ResolveCategory(req.category, f.lookupFails, f.categoryInsertFails);
      if categoryId.Err? {
        return Err(categoryId.error);
      }
      if f.prepareFails {
        return Err(PrepareStatement);
      }
      if f.itemInsertFails {
        return Err(ItemInsert);
      }
      items := items + [ItemRow(NextRowId(ItemIds(items)), req.name, req.category, imageName)];
      return Ok(Item(req.name, req.category, imageName));
    }

    /** searchItem: the two failure points, then the scan of the joined rows
        with the pattern "%" + keyword + "%". */
    method SearchItem(keyword: string, dbOpenFails: bool, queryFails: bool) returns (r: Result<seq<Item>>)
      ensures r == SearchOutcome(items, categories, keyword, dbOpenFails, queryFails)
    {
      if dbOpenFails {
        return Err(DatabaseOpen);
      }
      if queryFails {
        return Err(SearchQuery);
      }
      var found := ScanRows(Join(items, categories), ContainsPattern(keyword));
      return Ok(found);
    }
  }
}
