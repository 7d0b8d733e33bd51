# Item catalog service: verified model of the ingestion and read paths

This project models the handlers of a small catalog service (`go/app/main.go`):

- `addItem` stores an uploaded photo under a content-derived name. It then finds or creates the item's category and appends an item row.
- `getItemsId` looks one item up by id.
- `searchItem` returns the items whose name matches a keyword.
- `getImg` picks the image file to serve.

The store is modelled in memory:

- the `images/` directory is a map from file name to bytes;
- the `categories` table is a sequence of `(id, name)` rows;
- the `items` table is a sequence of `(id, name, category_id value, image_name)` rows.

Every I/O call that can fail is an explicit input. `AddFaults` covers `addItem`, `SaveFault` covers `saveImage`, and boolean flags cover the read paths. Each early return of the handlers is therefore a reachable branch of the model, with one exception: the `rows.Scan` error inside `searchItem`'s loop (go/app/main.go:263-265) is not modelled (see Left out).

Modules:

- `Types` (types.dfy): the rows, the uploaded file, the JSON `Item`, the error returns, and SQLite's rowid rule.
- `Numerals` (numerals.dfy): the decimal integer literals `strconv.Atoi` reads: an optional sign, then digits, within the int64 range. As a modelling choice, the join reads `items.category_id` with the same grammar; SQLite's integer affinity also converts some texts `Atoi` refuses (see Left out).
- `SqlLike` (like.dfy): SQLite's `LIKE`, with `%` and `_` wildcards and ASCII case folding.
- `Images` (images.dfy): the content-derived name, `saveImage`, `path.Join` under `images/`, and `getImg`'s path choice.
- `Categories` (categories.dfy): the find-or-create step of `addItem`.
- `Queries` (queries.dfy): the inner join, `getItemsId` and `searchItem`.
- `Ingest` (ingest.dfy): `addItem` as a transition of the whole store, and the lemmas about it.
- `App` (catalog.dfy): the `Catalog` class. Its `AddItem` updates the three fields step by step with early returns. Its `SearchItem` checks the two failure points, then runs `ScanRows`, the loop over the joined rows. Both are proved against the functions above.

The code behaves as follows, and the model follows it:

- An image file is always truncated and rewritten, never skipped when it already exists. Rewriting the same bytes leaves the directory unchanged.
- The item name is not checked for emptiness.
- The search is SQLite `LIKE`. It is case-insensitive for ASCII letters, and `%` or `_` in the keyword act as wildcards.
- The item row's `category_id` receives the submitted category string (see Findings).
- A missing id and a failed lookup give the same "Error Query" reply.

## Model

| member | source | states |
|---|---|---|
| `Types.NextRowId` | go/app/main.go:109-114 | a new row's id (what `LastInsertId` returns) is above every existing id. It is one more than some existing id, or 1 on an empty table |
| `Numerals.ParseDecimal` | go/app/main.go:209 | a value is read exactly when the text is an optional sign followed by at least one digit. Which value is fixed by the lemmas `DigitsParse`, `PlusSign`, `MinusSign` and `LeadingZero` below |
| `Numerals.ParseInt64` | go/app/main.go:209-213 | `strconv.Atoi` succeeds only with an int64 value, and then agrees with the decimal reading |
| `Numerals.DecimalRoundTrip` | go/app/main.go:209 | the decimal rendering of any integer parses back to that integer |
| `Numerals.ParseInt64Decimal` | go/app/main.go:209-213 | `strconv.Atoi` reads back every int64 written in decimal |
| `Numerals.DigitsParse` | go/app/main.go:209 | a non-empty digit string reads as the value of its digits |
| `Numerals.PlusSign` | go/app/main.go:209 | a `+` before the digits does not change the value (`+5` reads as `5`) |
| `Numerals.MinusSign` | go/app/main.go:209 | a `-` before the digits negates the value (`-0` reads as `0`) |
| `Numerals.LeadingZero` | go/app/main.go:209 | leading zeros do not change the value (`007` reads as `7`); with the sign lemmas and `DecimalRoundTrip` this fixes every literal's value |
| `SqlLike.Like` | go/app/main.go:253-255 | the `LIKE` test of `searchItem`. A pattern without `%` or `_` matches exactly the names equal to it up to ASCII case; the lemmas below cover `%` |
| `SqlLike.PercentMatchesAll` | go/app/main.go:254-255 | a lone `%` matches every name |
| `SqlLike.PrefixPattern` | go/app/main.go:254-255 | a wildcard-free text followed by `%` matches exactly the names it is a case-folded prefix of |
| `SqlLike.TrailingUnderscore` | go/app/main.go:254-255 | `_` matches exactly one character: a wildcard-free text followed by `_` matches exactly the names one longer that it is a case-folded prefix of |
| `SqlLike.LeadingPercent` | go/app/main.go:254-255 | a pattern starting with `%` matches exactly when the rest matches some suffix |
| `SqlLike.KeywordContainment` | go/app/main.go:254-255 | for a keyword without `%` or `_`, `LIKE '%keyword%'` holds exactly when the name contains the keyword, ignoring ASCII case |
| `SqlLike.EmptyKeywordMatchesAll` | go/app/main.go:247-255 | an empty keyword matches every name |
| `Images.ImageName` | go/app/main.go:79-88 | the stored name is the hex digest of the bytes followed by `.jpg` |
| `Images.SaveImage` | go/app/main.go:139-156 | succeeds exactly without a fault, and then the file holds the bytes. An open or create failure changes nothing. A copy failure leaves a truncated prefix. No other file changes |
| `Images.SaveSameBytesUnchanged` | go/app/main.go:146-155 | rewriting a file with the bytes it holds leaves the directory unchanged |
| `Images.JoinImgDir` | go/app/main.go:229-232 | `path.Join("images", name)` for one path segment: a file inside `images/` named `name`, or a directory (`images` or `.`) for `""`, `.`, `..` and `/`. The path ends in `.jpg` exactly when the name does |
| `Images.UploadFault` | go/app/main.go:139-148 | saving the upload to a directory path fails: at `file.Open` if that fails, otherwise at `os.Create`. For any other name the write ends as it would on a file |
| `Images.ResolveImagePath` | go/app/main.go:229-241 | rejected exactly when the name does not end in `.jpg`. An existing file is served from its own path, a missing one from `images/default.jpg`. Every path served ends in `.jpg` |
| `Categories.FindCategory` | go/app/main.go:105-106 | finds the first row whose name equals the submitted name exactly, and finds none only when no row has it |
| `Categories.ResolveCategory` | go/app/main.go:103-119 | find-or-create: an error is a failed lookup (`CategoryQuery`) or a failed insert (`CategoryInsert`). On success the table only grows, by at most one row. It is unchanged exactly when a row already has the name. Afterwards a row pairs the resolved id with the name. The lemmas below give the error cases in both directions |
| `Categories.ResolveErrors` | go/app/main.go:106-119 | a failed lookup aborts whether or not the row exists. A failed insert aborts exactly when the name has no row. Nothing else aborts |
| `Categories.ResolveExisting` | go/app/main.go:104-108 | an existing name resolves to the id of a row with that name and leaves the table unchanged |
| `Categories.ResolveNew` | go/app/main.go:108-114 | a new name appends exactly one row with that name and an unused id, and resolves to that id |
| `Categories.ResolveKeepsIdsUnique` | go/app/main.go:104-114 | find-or-create keeps category ids unique, and a row pairs the resolved id with the name |
| `Categories.ResolveKeepsNamesUnique` | go/app/main.go:104-114 | find-or-create keeps names unique, and the only row with the name has the resolved id |
| `Categories.ResolveTwice` | go/app/main.go:104-114 | resolving the same name twice gives one id, and the second call leaves the table as the first left it |
| `Queries.Joins` | go/app/main.go:217 | `items.category_id = categories.id` holds exactly when the stored value reads as a decimal literal of the id and the id is an int64. Every int64 id joins its own decimal rendering |
| `Queries.CategoryMatches` | go/app/main.go:217 | an item's joined rows are exactly the categories whose id its `category_id` value equals |
| `Queries.Join` | go/app/main.go:217 | the inner join holds exactly the (item, category) pairs whose `category_id` value equals the category id |
| `Queries.FindById` | go/app/main.go:217-219 | `QueryRow` scans the first joined row with the id, and finds none only when no joined row has it |
| `Queries.GetItemById` | go/app/main.go:198-227 | fails with `DatabaseOpen` on a database error and with `InvalidItemId` on a non-integer id. Otherwise it succeeds exactly when a joined row has the id, and every other failure is `ItemQuery` ("Error Query"). The reply is the item name, category name and image name of the first joined row with the id, as `FindById` picks it |
| `Queries.GetItemByIdFinds` | go/app/main.go:207-226 | with unique ids, the lookup of an item's id replies with that item and the name of the category it joins |
| `Queries.SearchRows` | go/app/main.go:254-268 | the result holds exactly the projections of the rows whose name matches the pattern, and is no longer than the rows |
| `Queries.Search` | go/app/main.go:253-268 | the results are exactly the (item name, category name, image name) triples of item rows and category rows that join and whose item name matches `"%" + keyword + "%"` |
| `Queries.SearchOutcome` | go/app/main.go:247-269 | `searchItem` fails exactly when opening the database or running the query fails, with `DatabaseOpen` or `SearchQuery`. Otherwise it replies with `Search` |
| `Queries.SearchRowsAppend` | go/app/main.go:261-268 | the search keeps row order: its result on concatenated rows is the concatenation of the results |
| `Queries.SearchAfterAppend` | go/app/main.go:254-268 | appending an item keeps the earlier results and adds the new item's matches at the end |
| `Queries.SearchByKeyword` | go/app/main.go:254-268 | for a keyword without wildcards, the results are exactly the joined items whose name contains the keyword, ignoring ASCII case |
| `Queries.SearchRowsEmptyKeyword` | go/app/main.go:254-268 | an empty keyword returns every joined row, in order |
| `Queries.NonNumericRefJoinsNothing` | go/app/main.go:217 | an item whose `category_id` value is not an integer literal joins no category |
| `Queries.NoJoinNoMatches` | go/app/main.go:217 | an item whose `category_id` value equals no category id has no joined rows |
| `Queries.OnlyMatch` | go/app/main.go:217 | with unique category ids, an item joins exactly the one category its value names |
| `Queries.AppendedItemFound` | go/app/main.go:215-268 | a row appended with a fresh id that joins a category is what the lookup by id returns, and the search adds it last when its name matches |
| `Ingest.StoreUpload` | go/app/main.go:54-91 | the image writes, in order: save under the upload's name, open, hash, save under `digest(bytes) + ".jpg"`. The first failing step decides the reply: `ImageSave`, `ImageOpen`, `ImageHash`, then `ImageSave`. The directory is what the writes so far left: after a failed open or hash, only the upload's own file is new. Success exactly when no step fails; then the directory is the old one with exactly those two files set to the bytes. A missing image, or a name that is a directory, changes nothing |
| `Ingest.Record` | go/app/main.go:94-136 | the database steps, in order: open, find-or-create, prepare, insert. `DatabaseOpen` and a find-or-create error leave both tables as they were. `PrepareStatement` and `ItemInsert` keep the table find-or-create produced, including a new category row, and add no item. Success exactly when no step fails; it appends exactly one row with the name, the image name and an id above every earlier id, and echoes the three values |
| `Ingest.Submit` | go/app/main.go:51-136 | `addItem` with the chosen `category_id` binding. A missing image replies `ImageFormFile` and changes nothing. A failure adds no item row. Success echoes name, category and `digest(bytes) + ".jpg"`, appends exactly one row, and leaves the image directory as before except for the two files written with the bytes |
| `Ingest.SubmitSucceedsIff` | go/app/main.go:51-136 | `addItem` succeeds exactly when the image is present, its name is not a directory, and none of the image save, open, hash, hashed save, database open, lookup, category insert (only for a new name), prepare and item insert fails. The order of the steps is stated by `SubmitFirstFault` and `SubmitFirstDatabaseFault` |
| `Ingest.SubmitFirstFault` | go/app/main.go:61-91 | for an upload that is present and not a directory, the first failing image step decides the reply: the upload save (`ImageSave`), then the open (`ImageOpen`), the hash (`ImageHash`), the hashed save (`ImageSave`). Both tables are unchanged. After a failed open or hash the directory is the old one with only the upload's own file written |
| `Ingest.SubmitFirstDatabaseFault` | go/app/main.go:94-132 | once both image files hold the bytes (and the directory is otherwise unchanged), the first failing database step decides the reply: `DatabaseOpen`, then `CategoryQuery` or `CategoryInsert` (both tables unchanged), then `PrepareStatement`, then `ItemInsert`. The last two keep the find-or-create table, including a new category row, and add no item |
| `Ingest.SubmitEarlyFailureLeavesTables` | go/app/main.go:54-101 | a missing image changes nothing. A failure to save, reopen or hash the image, or to open the database, leaves both tables unchanged |
| `Ingest.SubmitCategoryFailure` | go/app/main.go:104-119 | a failed category lookup or insert leaves both tables unchanged |
| `Ingest.SubmitFailureAddsNoItem` | go/app/main.go:51-132 | no failing `addItem` adds an item row |
| `Ingest.SubmitSuccess` | go/app/main.go:121-136 | success appends exactly one row with a fresh id, the submitted name, the submitted category string and `digest + ".jpg"`. Earlier rows are unchanged. The categories table is the find-or-create result. Both image files hold the bytes. The reply echoes name, category and image name |
| `Ingest.UploadToDirectoryFails` | go/app/main.go:61-66 | an upload named `""`, `.`, `..` or `/` (a directory once joined under `images/`) makes `addItem` reply `ImageSave` and leaves the store unchanged |
| `Ingest.SubmitNamesImageByContent` | go/app/main.go:61-92 | apart from whether it names a directory, the uploaded file name changes neither the reply nor the tables. The stored name is `digest(bytes) + ".jpg"` |
| `Ingest.ResubmitKeepsImages` | go/app/main.go:61-92 | submitting the same upload again leaves the image directory unchanged, and a second success echoes the first reply |
| `Ingest.StoredImageIsServed` | go/app/main.go:229-241 | the image a successful `addItem` names is served from its own path, not the default |
| `Ingest.NextRowIdInRange` | go/app/main.go:114 | the next rowid of a table of int64 ids is an int64 |
| `Ingest.SubmittedNameNeverJoins` | go/app/main.go:128 | as written, an item with a non-numeric category adds no search result of its own (the search over the new tables is that over the earlier rows), and the lookup of its id fails with `ItemQuery` |
| `Ingest.FashionExample` | go/app/main.go:128 | as written, `T-shirt` in category `fashion` is accepted, yet lookup of id 1 fails and search for `Shirt` returns nothing |
| `Ingest.ResolvedIdInRange` | go/app/main.go:104-114 | the resolved category id is an int64 that a row pairs with the name |
| `Ingest.RecordResolvedIdIsFound` | go/app/main.go:121-128 | with the resolved id bound, the new row is returned by lookup with exactly the reply, and the search appends it when it matches |
| `Ingest.ResolvedIdIsFound` | go/app/main.go:121-136 | corrected: every successful submission is returned by lookup of its id exactly as `addItem` replied, and the search adds it last whenever its name matches |
| `App.Catalog.SaveImage` | go/app/main.go:139-156 | the directory update is the one `Images.SaveImage` specifies |
| `App.Catalog.ResolveCategory` | go/app/main.go:103-119 | returns the id `Categories.ResolveCategory` resolves and stores its table. On an error the table is unchanged |
| `App.Catalog.AddItem` | go/app/main.go:51-137 | the reply and the new image directory and tables are those of `Ingest.Submit` with the submitted category string bound |
| `App.ScanRows` | go/app/main.go:261-268 | stepping through the joined rows and appending each matching row's projection yields exactly `Queries.SearchRows`, in row order |
| `App.Catalog.SearchItem` | go/app/main.go:244-270 | returns exactly `Queries.SearchOutcome`: the matching items in join order, or the database error |

## Left out

- HTTP routing, middleware, CORS, logging, `root` and `main` (go/app/main.go:46-49, 272-299): framework wiring.
- `getItems` (go/app/main.go:158-196): it scans `SELECT *` into three fields, and its result depends on a table schema that is not part of this model.
- Multipart parsing: the upload's file name and bytes, and whether an image field is present, are inputs.
- SHA-256 and hex encoding: the digest is an uninterpreted function. Nothing assumes it is collision-free, so the model lets two different uploads share a name.
- `path.Join` cleaning: a name is taken as one path segment, as multipart reduces an upload's file name to its last element. The segments that make the joined path a directory (`""`, `.`, `..`, `/`) are modelled. A `getImg` name holding `/` elsewhere is not cleaned.
- `os.Stat` errors other than absence (a permission error on an existing file) are not distinguished from absence. Serving the file's bytes, and a missing `images/default.jpg`, are not modelled.
- SQLite integer affinity, a modelling choice: the join reads `items.category_id` with `strconv.Atoi`'s grammar, so only `[+-]?[0-9]+` in the int64 range is read as an integer. SQLite also converts padded (`" 3"`) and real-valued (`"3.0"`) texts; the model treats them as not joining.
- Row order: the join is taken with items as the outer loop, and `QueryRow` as the first row in rowid order. SQL gives no order without `ORDER BY`.
- `NULL` values, `rows.Scan` and `rows.Err` failures, the `LIKE` pattern-length limit, and rowid exhaustion at 2^63-1 are not modelled.
- The reply text built by `fmt.Sprintf` and the JSON encoding are not modelled. The reply is the echoed `Item`. An empty search encodes as `null`.
- Concurrent requests, including two first uses of one category name racing, are not modelled. The model is sequential.
- `Queries.GetItemByIdFinds`: assumes unique ids in both tables, which primary keys would guarantee; the schema is not part of this model.
- `Ingest.ResolvedIdIsFound`: assumes unique ids below the int64 maximum in both tables.
- The React components (`Listing.tsx`, `ItemList.tsx`) are UI and `fetch` calls, and are not part of this model.

## Findings

| source | as written | input that shows it | evidently intended | confidence | as-written member | corrected member |
|---|---|---|---|---|---|---|
| go/app/main.go:128 | binds the submitted category string to `items.category_id`, although the joins at lines 217 and 254 compare that column with `categories.id` | on an empty store, submit name `T-shirt`, category `fashion` and any image: the reply is OK, yet `GET /items/1` fails with "Error Query" and `GET /search?keyword=Shirt` returns no items | bind `categoryID`, the id resolved at lines 104-114 | high; not executed | `Ingest.SubmittedNameNeverJoins` | `Ingest.ResolvedIdIsFound` |

`Ingest.Submit` takes the bound value as a parameter: `SubmittedName` is the code as written, and `ResolvedId` is the correction. `App.Catalog.AddItem` models the handler and therefore binds `SubmittedName`.
