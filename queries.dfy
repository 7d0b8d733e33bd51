/** The read paths: getItemsId and searchItem, both over
    `items JOIN categories ON items.category_id = categories.id`. SQLite runs
    the join with items as the outer loop, so joined rows come in items-table
    order, and for one item in categories-table order. */
module Queries {
  import opened Types
  import opened Numerals
  import opened SqlLike
  import opened Categories

  /** `items.category_id = categories.id`. The column holds what addItem bound
      to it, a string. The model reads it with INTEGER affinity as
      strconv.Atoi would: it equals the id `id` exactly when it is a decimal
      literal of that value and the value is an int64. SQLite also converts
      some texts Atoi refuses (surrounding spaces, "3.0"); the model treats
      those as not joining. */
  predicate Joins(ref: string, id: int)
    ensures Joins(ref, id) <==> ParseDecimal(ref) == Some(id) && MinInt64 <= id <= MaxInt64
    ensures MinInt64 <= id <= MaxInt64 && ref == Decimal(id) ==> Joins(ref, id)
  {
    var v := ParseInt64(ref);
    assert MinInt64 <= id <= MaxInt64 && ref == Decimal(id) ==> v == Some(id) by {
      if MinInt64 <= id <= MaxInt64 && ref == Decimal(id) {
        ParseInt64Decimal(id);
      }
    }
    v == Some(id)
  }

  /** One row of the inner join. */
  datatype JoinedRow = JoinedRow(item: ItemRow, category: Category)

  /** The joined rows of one item, in categories-table order. */
  function CategoryMatches(it: ItemRow, cats: seq<Category>): (r: seq<JoinedRow>)
    ensures forall row :: row in r <==>
      row.item == it && row.category in cats && Joins(it.categoryRef, row.category.id)
  {
    if cats == [] then []
    else
      var last := cats[|cats| - 1];
      assert cats == cats[..|cats| - 1] + [last];
      CategoryMatches(it, cats[..|cats| - 1])
        + (if Joins(it.categoryRef, last.id) then [JoinedRow(it, last)] else [])
  }

  /** `items JOIN categories ON items.category_id = categories.id`. */
  function Join(items: seq<ItemRow>, cats: seq<Category>): (r: seq<JoinedRow>)
    ensures forall row :: row in r <==>
      row.item in items && row.category in cats && Joins(row.item.categoryRef, row.category.id)
  {
    if items == [] then []
    else
      assert items == items[..|items| - 1] + [items[|items| - 1]];
      Join(items[..|items| - 1], cats) + CategoryMatches(items[|items| - 1], cats)
  }

  /** The three selected columns: items.name, categories.name, items.image_name. */
  function Project(row: JoinedRow): Item {
    Item(row.item.name, row.category.name, row.item.imageName)
  }

  /** The row QueryRow scans for `WHERE items.id = n`: the first joined row
      whose item has that id. */
  function FindById(rows: seq<JoinedRow>, n: int): (r: Option<nat>)
    ensures r.None? <==> forall k :: 0 <= k < |rows| ==> rows[k].item.id != n
    ensures r.Some? ==> r.value < |rows| && rows[r.value].item.id == n
    ensures r.Some? ==> forall k :: 0 <= k < r.value ==> rows[k].item.id != n
  {
    if rows == [] then None
    else if rows[0].item.id == n then Some(0)
    else match FindById(rows[1..], n)
      case None => None
      case Some(k) => Some(k + 1)
  }

  /** getItemsId. `dbOpenFails` stands for a failing sql.Open, `queryFails` for
      a driver error of the lookup other than "no rows". */
  function GetItemById(items: seq<ItemRow>, cats: seq<Category>, idParam: string,
                       dbOpenFails: bool, queryFails: bool): (r: Result<Item>)
    ensures dbOpenFails ==> r == Err(DatabaseOpen)
    ensures !dbOpenFails && ParseInt64(idParam).None? ==> r == Err(InvalidItemId)
    ensures r.Ok? <==>
      && !dbOpenFails && !queryFails && ParseInt64(idParam).Some?
      && exists row :: row in Join(items, cats) && row.item.id == ParseInt64(idParam).value
    ensures !dbOpenFails && ParseInt64(idParam).Some? && r.Err? ==> r == Err(ItemQuery)
    ensures r.Ok? ==>
      exists row :: row in Join(items, cats) && row.item.id == ParseInt64(idParam).value && r.value == Project(row)
    ensures r.Ok? ==>
      var rows := Join(items, cats);
      var k := FindById(rows, ParseInt64(idParam).value);
      k.Some? && r.value == Project(rows[k.value])
  {
    if dbOpenFails then Err(DatabaseOpen)
    else match ParseInt64(idParam)
      case None => Err(InvalidItemId)
      case Some(n) =>
        if queryFails then Err(ItemQuery)
        else
          var rows := Join(items, cats);
          match FindById(rows, n)
          case None => Err(ItemQuery)
          case Some(k) => Ok(Project(rows[k]))
  }

  predicate UniqueItemIds(items: seq<ItemRow>) {
    forall i, j :: 0 <= i < j < |items| ==> items[i].id != items[j].id
  }

  /** With unique ids on both tables, getItemsId of an item's id returns that
      item with the name of the category its reference joins. */
  lemma GetItemByIdFinds(items: seq<ItemRow>, cats: seq<Category>, i: nat, c: nat)
    requires UniqueItemIds(items) && UniqueIds(cats)
    requires i < |items| && c < |cats|
    requires MinInt64 <= items[i].id <= MaxInt64
    requires Joins(items[i].categoryRef, cats[c].id)
    ensures GetItemById(items, cats, Decimal(items[i].id), false, false)
      == Ok(Item(items[i].name, cats[c].name, items[i].imageName))
  {
    var n := items[i].id;
    var rows := Join(items, cats);
    ParseInt64Decimal(n);
    assert JoinedRow(items[i], cats[c]) in rows;
    var k := FindById(rows, n).value;
    var row := rows[k];
    assert row in rows;
    var p :| 0 <= p < |items| && items[p] == row.item;
    assert p == i;
    var q :| 0 <= q < |cats| && cats[q] == row.category;
    assert cats[q].id == cats[c].id;
    assert q == c;
  }

  /** The items searchItem returns from joined rows: those whose name matches
      the LIKE pattern, in row order. */
  function SearchRows(rows: seq<JoinedRow>, pattern: string): (r: seq<Item>)
    ensures |r| <= |rows|
    ensures forall x :: x in r <==>
      exists row :: row in rows && Like(pattern, row.item.name) && x == Project(row)
  {
    if rows == [] then []
    else
      var last := rows[|rows| - 1];
      assert rows == rows[..|rows| - 1] + [last];
      SearchRows(rows[..|rows| - 1], pattern)
        + (if Like(pattern, last.item.name) then [Project(last)] else [])
  }

  /** One more row: its projection is appended when its name matches. */
  lemma SearchRowsStep(rows: seq<JoinedRow>, i: nat, pattern: string)
    requires i < |rows|
    ensures SearchRows(rows[..i + 1], pattern)
      == SearchRows(rows[..i], pattern) + (if Like(pattern, rows[i].item.name) then [Project(rows[i])] else [])
  {
    assert rows[..i + 1][..i] == rows[..i];
  }

  /** searchItem's query for `keyword`. */
  function Search(items: seq<ItemRow>, cats: seq<Category>, keyword: string): (r: seq<Item>)
    ensures forall x :: x in r <==>
      exists it, c :: && it in items && c in cats && Joins(it.categoryRef, c.id)
                      && Like(ContainsPattern(keyword), it.name) && x == Item(it.name, c.name, it.imageName)
  {
    var rows := Join(items, cats);
    var r := SearchRows(rows, ContainsPattern(keyword));
    assert forall x :: x in r ==>
      exists it, c :: && it in items && c in cats && Joins(it.categoryRef, c.id)
                      && Like(ContainsPattern(keyword), it.name) && x == Item(it.name, c.name, it.imageName)
    by {
      forall x | x in r
        ensures exists it, c :: && it in items && c in cats && Joins(it.categoryRef, c.id)
                                && Like(ContainsPattern(keyword), it.name) && x == Item(it.name, c.name, it.imageName)
      {
        var row :| row in rows && Like(ContainsPattern(keyword), row.item.name) && x == Project(row);
      }
    }
    assert forall it, c ::
      (it in items && c in cats && Joins(it.categoryRef, c.id) && Like(ContainsPattern(keyword), it.name))
        ==> Item(it.name, c.name, it.imageName) in r
    by {
      forall it, c | && it in items && c in cats && Joins(it.categoryRef, c.id)
                     && Like(ContainsPattern(keyword), it.name)
        ensures Item(it.name, c.name, it.imageName) in r
      {
        assert JoinedRow(it, c) in rows;
        assert Project(JoinedRow(it, c)) == Item(it.name, c.name, it.imageName);
      }
    }
    r
  }

  /** searchItem. `dbOpenFails` and `queryFails` stand for sql.Open and
      db.Query returning an error. */
  function SearchOutcome(items: seq<ItemRow>, cats: seq<Category>, keyword: string,
                         dbOpenFails: bool, queryFails: bool): (r: Result<seq<Item>>)
    ensures r.Err? <==> dbOpenFails || queryFails
    ensures dbOpenFails ==> r == Err(DatabaseOpen)
    ensures !dbOpenFails && queryFails ==> r == Err(SearchQuery)
    ensures r.Ok? ==> r.value == Search(items, cats, keyword)
  {
    if dbOpenFails then Err(DatabaseOpen)
    else if queryFails then Err(SearchQuery)
    else Ok(Search(items, cats, keyword))
  }

  /** Filtering rows keeps their order: the result for a concatenation is the
      concatenation of the results. */
  lemma {:induction false} SearchRowsAppend(a: seq<JoinedRow>, b: seq<JoinedRow>, pattern: string)
    ensures SearchRows(a + b, pattern) == SearchRows(a, pattern) + SearchRows(b, pattern)
    decreases |b|
  {
    if b == [] {
      assert a + b == a;
    } else {
      var last := b[|b| - 1];
      assert (a + b)[..|a + b| - 1] == a + b[..|b| - 1];
      SearchRowsAppend(a, b[..|b| - 1], pattern);
    }
  }

  /** Appending an item leaves the results for earlier items in place and adds
      the matches of the new item, each joined category in table order, at the end. */
  lemma SearchAfterAppend(items: seq<ItemRow>, cats: seq<Category>, it: ItemRow, keyword: string)
    ensures Search(items + [it], cats, keyword)
      == Search(items, cats, keyword) + SearchRows(CategoryMatches(it, cats), ContainsPattern(keyword))
  {
    assert (items + [it])[..|items|] == items;
    SearchRowsAppend(Join(items, cats), CategoryMatches(it, cats), ContainsPattern(keyword));
  }

  /** For a keyword without '%' or '_', searchItem returns exactly the joined
      items whose name contains the keyword, ignoring ASCII case. */
  lemma SearchByKeyword(items: seq<ItemRow>, cats: seq<Category>, keyword: string)
    requires NoWildcards(keyword)
    ensures forall x :: x in Search(items, cats, keyword) <==>
      exists row :: row in Join(items, cats) && ContainsFold(row.item.name, keyword) && x == Project(row)
  {
    forall row | row in Join(items, cats)
      ensures Like(ContainsPattern(keyword), row.item.name) <==> ContainsFold(row.item.name, keyword)
    {
      KeywordContainment(keyword, row.item.name);
    }
  }

  /** An empty keyword returns every joined row, in order. */
  lemma {:induction false} SearchRowsEmptyKeyword(rows: seq<JoinedRow>)
    ensures SearchRows(rows, ContainsPattern("")) == seq(|rows|, k requires 0 <= k < |rows| => Project(rows[k]))
    decreases |rows|
  {
    if rows != [] {
      var last := rows[|rows| - 1];
      SearchRowsEmptyKeyword(rows[..|rows| - 1]);
      EmptyKeywordMatchesAll(last.item.name);
    }
  }

  /** An item whose category reference is not an integer literal joins no
      category, so it is in no search result and getItemsId never finds it. */
  lemma {:induction false} NonNumericRefJoinsNothing(it: ItemRow, cats: seq<Category>)
    requires ParseInt64(it.categoryRef).None?
    ensures CategoryMatches(it, cats) == []
    decreases |cats|
  {
    if cats != [] {
      NonNumericRefJoinsNothing(it, cats[..|cats| - 1]);
    }
  }

  /** An item whose reference joins none of the categories has no joined rows. */
  lemma {:induction false} NoJoinNoMatches(it: ItemRow, cats: seq<Category>)
    requires forall k :: 0 <= k < |cats| ==> !Joins(it.categoryRef, cats[k].id)
    ensures CategoryMatches(it, cats) == []
    decreases |cats|
  {
    if cats != [] {
      NoJoinNoMatches(it, cats[..|cats| - 1]);
    }
  }

  /** A reference that joins category `c` of a table with unique ids joins
      that category only. */
  lemma {:induction false} OnlyMatch(it: ItemRow, cats: seq<Category>, c: nat)
    requires UniqueIds(cats) && c < |cats| && Joins(it.categoryRef, cats[c].id)
    ensures CategoryMatches(it, cats) == [JoinedRow(it, cats[c])]
    decreases |cats|
  {
    var prefix := cats[..|cats| - 1];
    if c == |cats| - 1 {
      forall k | 0 <= k < |prefix| ensures !Joins(it.categoryRef, prefix[k].id) {
        assert prefix[k].id != cats[c].id;
      }
      NoJoinNoMatches(it, prefix);
    } else {
      assert UniqueIds(prefix);
      OnlyMatch(it, prefix, c);
      assert !Joins(it.categoryRef, cats[|cats| - 1].id);
    }
  }

  /** A row appended with a fresh int64 id whose reference joins category `c`
      is what getItemsId returns for that id, and searchItem adds it after the
      results for the earlier rows when its name matches. */
  lemma AppendedItemFound(items: seq<ItemRow>, cats: seq<Category>, row: ItemRow, c: nat, keyword: string)
    requires UniqueItemIds(items) && UniqueIds(cats)
    requires forall k :: 0 <= k < |items| ==> items[k].id < row.id
    requires MinInt64 <= row.id <= MaxInt64
    requires c < |cats| && Joins(row.categoryRef, cats[c].id)
    ensures GetItemById(items + [row], cats, Decimal(row.id), false, false)
      == Ok(Item(row.name, cats[c].name, row.imageName))
    ensures Search(items + [row], cats, keyword)
      == Search(items, cats, keyword)
         + (if Like(ContainsPattern(keyword), row.name) then [Item(row.name, cats[c].name, row.imageName)] else [])
  {
    var after := items + [row];
    assert UniqueItemIds(after) by {
      forall i, j | 0 <= i < j < |after| ensures after[i].id != after[j].id {
        if j == |items| { assert after[i] == items[i]; }
      }
    }
    assert after[|items|] == row;
    GetItemByIdFinds(after, cats, |items|, c);
    SearchAfterAppend(items, cats, row, keyword);
    OnlyMatch(row, cats, c);
    var single := [JoinedRow(row, cats[c])];
    assert single[..0] == [];
  }
}
