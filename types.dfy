/** The records of the item catalog: uploads, table rows, the JSON item the
    handlers reply with, and the errors they return. */
module Types {

  datatype Option<+T> = None | Some(value: T)

  /** What a handler returns: a value, or the error it reports to the client. */
  datatype Result<+T> = Ok(value: T) | Err(error: Error)

  type Bytes = seq<bv8>

  /** The error returns of the handlers, one per failing step (ImageSave
      stands for both calls of saveImage). */
  datatype Error =
    | ImageFormFile       // the multipart form has no "image" file
    | ImageSave           // saveImage failed
    | ImageOpen           // the uploaded image could not be reopened for hashing
    | ImageHash           // reading the image into the digest failed
    | DatabaseOpen        // sql.Open failed
    | CategoryInsert      // INSERT INTO categories failed
    | CategoryQuery       // SELECT id FROM categories failed other than with "no rows"
    | PrepareStatement    // preparing INSERT INTO items failed
    | ItemInsert          // executing INSERT INTO items failed
    | InvalidItemId       // the id path parameter is not an integer
    | ItemQuery           // the single-row lookup by id found no row or failed
    | SearchQuery         // the search query failed
    | ImagePath           // the requested image path does not end in ".jpg"

  /** One uploaded file of the multipart form: its client-side name and bytes. */
  datatype Upload = Upload(filename: string, data: Bytes)

  /** The form fields of POST /items. */
  datatype AddRequest = AddRequest(name: string, category: string, image: Option<Upload>)

  /** A row of the categories table. */
  datatype Category = Category(id: int, name: string)

  /** A row of the items table. `categoryRef` is the value bound to the
      category_id column, exactly as the handler passed it. */
  datatype ItemRow = ItemRow(id: int, name: string, categoryRef: string, imageName: string)

  /** The JSON record the handlers reply with. */
  datatype Item = Item(name: string, category: string, imageName: string)

  function CategoryIds(cats: seq<Category>): seq<int> {
    seq(|cats|, k requires 0 <= k < |cats| => cats[k].id)
  }

  function ItemIds(items: seq<ItemRow>): seq<int> {
    seq(|items|, k requires 0 <= k < |items| => items[k].id)
  }

  /** The rowid SQLite gives a new row: one more than the largest rowid in the
      table, or 1 when the table is empty. */
  function NextRowId(ids: seq<int>): (r: int)
    ensures forall k :: 0 <= k < |ids| ==> ids[k] < r
    ensures ids == [] ==> r == 1
    ensures ids != [] ==> exists k :: 0 <= k < |ids| && r == ids[k] + 1
  {
    if |ids| == 0 then 1
    else if |ids| == 1 then ids[0] + 1
    else
      var m := NextRowId(ids[..|ids| - 1]);
      if ids[|ids| - 1] + 1 > m then ids[|ids| - 1] + 1 else m
  }
}
