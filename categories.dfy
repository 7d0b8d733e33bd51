/** addItem's find-or-create on the categories table: look the submitted name
    up (`SELECT id FROM categories WHERE name = ?`, an exact, case-sensitive
    comparison), and when there is no row insert one and use its new rowid. */
module Categories {
  import opened Types

  /** The row QueryRow scans: the first one whose name is exactly `name`. */
  function FindCategory(cats: seq<Category>, name: string): (r: Option<nat>)
    ensures r.None? <==> forall k :: 0 <= k < |cats| ==> cats[k].name != name
    ensures r.Some? ==> r.value < |cats| && cats[r.value].name == name
    ensures r.Some? ==> forall k :: 0 <= k < r.value ==> cats[k].name != name
  {
    if cats == [] then None
    else if cats[0].name == name then Some(0)
    else match FindCategory(cats[1..], name)
      case None => None
      case Some(k) => Some(k + 1)
  }

  /** The id addItem goes on with, and the categories table afterwards. */
  datatype Resolved = Resolved(id: int, categories: seq<Category>)

  /** Lines 104-119 of addItem. `lookupFails` stands for a lookup error other
      than sql.ErrNoRows, `insertFails` for a failed INSERT INTO categories. */
  function ResolveCategory(cats: seq<Category>, name: string, lookupFails: bool, insertFails: bool)
    : (r: Result<Resolved>)
    ensures r.Err? ==> (lookupFails && r.error == CategoryQuery) || (insertFails && r.error == CategoryInsert)
    ensures r.Ok? ==> cats <= r.value.categories && |r.value.categories| <= |cats| + 1
    ensures r.Ok? ==> (r.value.categories == cats <==> exists k :: 0 <= k < |cats| && cats[k].name == name)
    ensures r.Ok? ==> exists k :: 0 <= k < |r.value.categories| && r.value.categories[k] == Category(r.value.id, name)
  {
    if lookupFails then Err(CategoryQuery)
    else match FindCategory(cats, name)
      case Some(k) =>
        assert cats[k] == Category(cats[k].id, name);
        Ok(Resolved(cats[k].id, cats))
      case None =>
        if insertFails then Err(CategoryInsert)
        else
          var id := NextRowId(CategoryIds(cats));
          var after := cats + [Category(id, name)];
          assert after[|cats|] == Category(id, name) && after != cats;
          Ok(Resolved(id, after))
  }

  predicate UniqueNames(cats: seq<Category>) {
    forall i, j :: 0 <= i < j < |cats| ==> cats[i].name != cats[j].name
  }

  predicate UniqueIds(cats: seq<Category>) {
    forall i, j :: 0 <= i < j < |cats| ==> cats[i].id != cats[j].id
  }

  /** Errors: a failed lookup aborts whether or not the row exists; a failed
      insert can abort only when no row exists; nothing else aborts. */
  lemma ResolveErrors(cats: seq<Category>, name: string, lookupFails: bool, insertFails: bool)
    ensures var r := ResolveCategory(cats, name, lookupFails, insertFails);
      && (lookupFails <==> r == Err(CategoryQuery))
      && (r == Err(CategoryInsert) <==>
            !lookupFails && insertFails && forall k :: 0 <= k < |cats| ==> cats[k].name != name)
      && (r.Err? ==> lookupFails || insertFails)
  {
  }

  /** A name that has a row resolves to that row's id; the table is unchanged. */
  lemma ResolveExisting(cats: seq<Category>, name: string, insertFails: bool)
    requires exists k :: 0 <= k < |cats| && cats[k].name == name
    ensures var r := ResolveCategory(cats, name, false, insertFails);
      && r.Ok? && r.value.categories == cats
      && exists k :: 0 <= k < |cats| && cats[k].name == name && cats[k].id == r.value.id
  {
    var k := FindCategory(cats, name).value;
    assert cats[k].name == name;
  }

  /** A name without a row gets exactly one new row, appended, whose id is
      not used by any existing row, and that id is the one resolved. */
  lemma ResolveNew(cats: seq<Category>, name: string)
    requires forall k :: 0 <= k < |cats| ==> cats[k].name != name
    ensures var r := ResolveCategory(cats, name, false, false);
      && r.Ok?
      && r.value.categories == cats + [Category(r.value.id, name)]
      && forall k :: 0 <= k < |cats| ==> cats[k].id < r.value.id
  {
    var ids := CategoryIds(cats);
    forall k | 0 <= k < |cats| ensures cats[k].id < NextRowId(ids) {
      assert ids[k] == cats[k].id;
    }
  }

  /** Find-or-create keeps ids unique, and afterwards a row pairs the
      resolved id with the name. */
  lemma ResolveKeepsIdsUnique(cats: seq<Category>, name: string, lookupFails: bool, insertFails: bool)
    requires UniqueIds(cats)
    requires ResolveCategory(cats, name, lookupFails, insertFails).Ok?
    ensures var after := ResolveCategory(cats, name, lookupFails, insertFails).value;
      && UniqueIds(after.categories)
      && exists k :: 0 <= k < |after.categories| && after.categories[k] == Category(after.id, name)
  {
    var after := ResolveCategory(cats, name, lookupFails, insertFails).value;
    match FindCategory(cats, name)
    case Some(k) =>
      assert after.categories[k] == Category(after.id, name);
    case None =>
      ResolveNew(cats, name);
      assert after.categories[|cats|] == Category(after.id, name);
  }

  /** Find-or-create keeps names unique: afterwards exactly one row carries
      the name, and it has the resolved id. */
  lemma ResolveKeepsNamesUnique(cats: seq<Category>, name: string, lookupFails: bool, insertFails: bool)
    requires UniqueNames(cats)
    requires ResolveCategory(cats, name, lookupFails, insertFails).Ok?
    ensures var after := ResolveCategory(cats, name, lookupFails, insertFails).value;
      && UniqueNames(after.categories)
      && forall k :: 0 <= k < |after.categories| && after.categories[k].name == name ==> after.categories[k].id == after.id
  {
    var after := ResolveCategory(cats, name, lookupFails, insertFails).value;
    if FindCategory(cats, name).None? {
      assert after.categories == cats + [Category(after.id, name)];
    }
  }

  /** Resolving the same name twice uses one id, and the second resolution
      leaves the table as the first left it. */
  lemma ResolveTwice(cats: seq<Category>, name: string)
    ensures var first := ResolveCategory(cats, name, false, false);
      && first.Ok?
      && ResolveCategory(first.value.categories, name, false, false) == first
  {
    var first := ResolveCategory(cats, name, false, false);
    if FindCategory(cats, name).None? {
      var after := first.value.categories;
      assert after[|cats|].name == name;
      assert FindCategory(after, name) == Some(|cats|);
    }
  }
}
