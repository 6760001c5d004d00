/** The repository: the queries over the two tables as functions of their
    contents, and the writes as methods of the `Catalog` that holds them.
    Every call is one atomic step on the tables (one session, one commit). */
module Crud {
  import opened Wrappers
  import opened Models
  import Sql

  // =====================================================================
  // Primary-key order
  // =====================================================================

  /** A member of a non-empty set. */
  lemma Member(ids: set<int>) returns (x: int)
    requires ids != {}
    ensures x in ids
  {
    if forall k :: k !in ids {
      assert false;
    }
    x :| x in ids;
  }

  /** A key under which `v` is stored. */
  lemma KeyOf<T>(table: map<int, T>, v: T) returns (k: int)
    requires v in table.Values
    ensures k in table && table[k] == v
  {
    if forall j :: j in table ==> table[j] != v {
      assert false;
    }
    k :| k in table && table[k] == v;
  }

  lemma {:induction false} LeastExists(ids: set<int>)
    requires ids != {}
    ensures exists k :: k in ids && forall j :: j in ids ==> k <= j
    decreases |ids|
  {
    var x := Member(ids);
    if ids == {x} {
      forall j | j in ids ensures x <= j { }
    } else {
      var rest := ids - {x};
      if rest == {} {
        assert false;
      }
      LeastExists(rest);
      var m :| m in rest && forall j :: j in rest ==> m <= j;
      var k := if x < m then x else m;
      forall j | j in ids ensures k <= j {
        if j != x {
          assert j in rest;
        }
      }
      assert k in ids;
    }
  }

  function Least(ids: set<int>): (k: int)
    requires ids != {}
    ensures k in ids && forall j :: j in ids ==> k <= j
  {
    LeastExists(ids);
    var k :| k in ids && (forall j :: j in ids ==> k <= j); k
  }

  /** The keys of a table in increasing order, each once. */
  function SortedIds(ids: set<int>): (r: seq<int>)
    ensures |r| == |ids|
    ensures forall k :: k in r <==> k in ids
    ensures forall i, j :: 0 <= i < j < |r| ==> r[i] < r[j]
    decreases |ids|
  {
    if ids == {} then []
    else
      var k := Least(ids);
      [k] + SortedIds(ids - {k})
  }

  /** The rows of a table in primary-key order: the order in which the model
      takes the results of the queries that have no ORDER BY. */
  function RowsById<T(==, !new)>(table: map<int, T>): (r: seq<T>)
    ensures |r| == |table|
    ensures forall x :: x in r <==> x in table.Values
  {
    var ids := SortedIds(table.Keys);
    var r := seq(|ids|, i requires 0 <= i < |ids| => table[ids[i]]);
    assert forall x :: x in table.Values ==> x in r by {
      forall x | x in table.Values ensures x in r {
        var k := KeyOf(table, x);
        var i :| 0 <= i < |ids| && ids[i] == k;
        assert r[i] == x;
      }
    }
    r
  }

  /** The rows stored under `ids`, in that order. */
  function Lookup<T>(table: map<int, T>, ids: seq<int>): (r: seq<T>)
    requires forall i :: 0 <= i < |ids| ==> ids[i] in table
    ensures |r| == |ids|
    ensures forall i :: 0 <= i < |ids| ==> r[i] == table[ids[i]]
  {
    if ids == [] then [] else [table[ids[0]]] + Lookup(table, ids[1..])
  }

  // =====================================================================
  // get_book, get_category, get_category_by_title
  // =====================================================================

  /** `get_book`: the row with that primary key, if any. */
  function GetBook(books: map<int, Book>, bookId: int): (r: Option<Book>)
    ensures r.Some? <==> bookId in books
    ensures r.Some? ==> r.value == books[bookId]
  {
    if bookId in books then Some(books[bookId]) else None
  }

  /** `get_category`. */
  function GetCategory(categories: map<int, Category>, categoryId: int): (r: Option<Category>)
    ensures r.Some? <==> categoryId in categories
    ensures r.Some? ==> r.value == categories[categoryId]
  {
    if categoryId in categories then Some(categories[categoryId]) else None
  }

  /** `get_category_by_title`: the first category (by key) whose title is
      exactly `title`; case matters. */
  function GetCategoryByTitle(categories: map<int, Category>, title: string): (r: Option<Category>)
    ensures r.Some? <==> TitleTaken(categories, title)
    ensures r.Some? ==> r.value.title == title && r.value in categories.Values
  {
    var keys := set k | k in categories && categories[k].title == title;
    assert TitleTaken(categories, title) ==> keys != {} by {
      if TitleTaken(categories, title) {
        var k :| k in categories && categories[k].title == title;
        assert k in keys;
      }
    }
    if keys == {} then None else Some(categories[Least(keys)])
  }

  /** Under the table constraints the lookup by title finds the category
      stored under the `id` it carries, and it finds a category other than
      `except` exactly when another category holds the title. Looking up a
      stored category's own title finds that category. */
  lemma TitleLookupFindsHolder(categories: map<int, Category>, books: map<int, Book>, title: string, except: int)
    requires Consistent(categories, books)
    ensures GetCategoryByTitle(categories, title).Some? ==>
      var c := GetCategoryByTitle(categories, title).value;
      c.id in categories && categories[c.id] == c
    ensures TitleHeldByOther(categories, title, except) <==>
      GetCategoryByTitle(categories, title).Some? && GetCategoryByTitle(categories, title).value.id != except
    ensures except in categories && categories[except].title == title ==>
      GetCategoryByTitle(categories, title) == Some(categories[except])
  {
    var r := GetCategoryByTitle(categories, title);
    if r.Some? {
      var k := KeyOf(categories, r.value);
      assert CategoryRowOk(k, categories[k]);
      if TitleHeldByOther(categories, title, except) {
        var j :| j in categories && j != except && categories[j].title == title;
        assert j == k;
      }
    }
  }

  // =====================================================================
  // get_books: filter, ORDER BY, OFFSET / LIMIT
  // =====================================================================

  /** The attributes of `Book` that name a column. */
  datatype Column = IdColumn | TitleColumn | DescriptionColumn | PriceColumn | UrlColumn | CategoryIdColumn

  /** `getattr(models.Book, sort_by, models.Book.id)`: a column name selects
      that column; any other name falls back to `id`. */
  function ColumnNamed(sortBy: string): (col: Column)
    ensures col == IdColumn <==> sortBy !in {"title", "description", "price", "url", "category_id"}
  {
    if sortBy == "title" then TitleColumn
    else if sortBy == "description" then DescriptionColumn
    else if sortBy == "price" then PriceColumn
    else if sortBy == "url" then UrlColumn
    else if sortBy == "category_id" then CategoryIdColumn
    else IdColumn
  }

  /** `a` may come before `b` under `ORDER BY col ASC`. */
  predicate ColumnLe(col: Column, a: Book, b: Book) {
    match col
    case IdColumn => a.id <= b.id
    case TitleColumn => Sql.TextLe(a.title, b.title)
    case DescriptionColumn => Sql.NullableTextLe(a.description, b.description)
    case PriceColumn => a.price <= b.price
    case UrlColumn => Sql.NullableTextLe(a.url, b.url)
    case CategoryIdColumn => a.categoryId <= b.categoryId
  }

  /** `a` may come before `b` under `ORDER BY col ASC` or `DESC`. */
  predicate Before(col: Column, descending: bool, a: Book, b: Book) {
    if descending then ColumnLe(col, b, a) else ColumnLe(col, a, b)
  }

  lemma BeforeTotal(col: Column, descending: bool, a: Book, b: Book)
    ensures Before(col, descending, a, b) || Before(col, descending, b, a)
  {
    match col
    case TitleColumn => Sql.TextLeTotal(a.title, b.title);
    case DescriptionColumn => Sql.NullableTextLeTotal(a.description, b.description);
    case UrlColumn => Sql.NullableTextLeTotal(a.url, b.url);
    case _ =>
  }

  lemma BeforeTransitive(col: Column, descending: bool, a: Book, b: Book, c: Book)
    requires Before(col, descending, a, b) && Before(col, descending, b, c)
    ensures Before(col, descending, a, c)
  {
    match col
    case TitleColumn =>
      if descending { Sql.TextLeTransitive(c.title, b.title, a.title); }
      else { Sql.TextLeTransitive(a.title, b.title, c.title); }
    case DescriptionColumn =>
      if descending { Sql.NullableTextLeTransitive(c.description, b.description, a.description); }
      else { Sql.NullableTextLeTransitive(a.description, b.description, c.description); }
    case UrlColumn =>
      if descending { Sql.NullableTextLeTransitive(c.url, b.url, a.url); }
      else { Sql.NullableTextLeTransitive(a.url, b.url, c.url); }
    case _ =>
  }

  predicate SortedBy(rows: seq<Book>, col: Column, descending: bool) {
    forall i, j :: 0 <= i < j < |rows| ==> Before(col, descending, rows[i], rows[j])
  }

  function Insert(x: Book, rows: seq<Book>, col: Column, descending: bool): (r: seq<Book>)
    ensures multiset(r) == multiset(rows) + multiset{x}
  {
    if rows == [] then [x]
    else if Before(col, descending, x, rows[0]) then [x] + rows
    else
      assert rows == [rows[0]] + rows[1..];
      [rows[0]] + Insert(x, rows[1..], col, descending)
  }

  lemma SortedTail(rows: seq<Book>, col: Column, descending: bool)
    requires rows != [] && SortedBy(rows, col, descending)
    ensures SortedBy(rows[1..], col, descending)
  {
    var tail := rows[1..];
    forall i, j | 0 <= i < j < |tail| ensures Before(col, descending, tail[i], tail[j]) {
      assert tail[i] == rows[i + 1] && tail[j] == rows[j + 1];
    }
  }

  /** A row that may precede every row of a sorted list may head it. */
  lemma SortedCons(x: Book, rows: seq<Book>, col: Column, descending: bool)
    requires SortedBy(rows, col, descending)
    requires forall y :: y in rows ==> Before(col, descending, x, y)
    ensures SortedBy([x] + rows, col, descending)
  {
    var r := [x] + rows;
    forall i, j | 0 <= i < j < |r| ensures Before(col, descending, r[i], r[j]) {
      assert r[j] == rows[j - 1];
      if i > 0 {
        assert r[i] == rows[i - 1];
      }
    }
  }

  lemma {:induction false} InsertKeepsSorted(x: Book, rows: seq<Book>, col: Column, descending: bool)
    requires SortedBy(rows, col, descending)
    ensures SortedBy(Insert(x, rows, col, descending), col, descending)
  {
    if rows == [] {
    } else if Before(col, descending, x, rows[0]) {
      forall y | y in rows ensures Before(col, descending, x, y) {
        var j :| 0 <= j < |rows| && rows[j] == y;
        if j > 0 {
          BeforeTransitive(col, descending, x, rows[0], rows[j]);
        }
      }
      SortedCons(x, rows, col, descending);
    } else {
      BeforeTotal(col, descending, x, rows[0]);
      var tail := rows[1..];
      SortedTail(rows, col, descending);
      InsertKeepsSorted(x, tail, col, descending);
      var rest := Insert(x, tail, col, descending);
      forall y | y in rest ensures Before(col, descending, rows[0], y) {
        assert y in multiset(rest);
        if y != x {
          assert y in multiset(tail);
          var j :| 0 <= j < |tail| && tail[j] == y;
          assert rows[j + 1] == y;
        }
      }
      SortedCons(rows[0], rest, col, descending);
    }
  }

  /** The database's sort: the rows in an order that respects `col` and the
      direction, and nothing added or lost. Rows that tie on `col` may come
      in any order in the source; the model fixes one. */
  function OrderBy(rows: seq<Book>, col: Column, descending: bool): (r: seq<Book>)
    ensures SortedBy(r, col, descending)
    ensures multiset(r) == multiset(rows)
  {
    if rows == [] then []
    else
      assert rows == [rows[0]] + rows[1..];
      var rest := OrderBy(rows[1..], col, descending);
      InsertKeepsSorted(rows[0], rest, col, descending);
      Insert(rows[0], rest, col, descending)
  }

  /** `filter(models.Book.category_id == category_id)`. */
  function InCategory(books: map<int, Book>, categoryId: int): map<int, Book> {
    map k | k in books && books[k].categoryId == categoryId :: books[k]
  }

  /** The books `get_books` selects, before any ORDER BY. */
  function Selected(books: map<int, Book>, categoryId: Option<int>): map<int, Book> {
    if categoryId.Some? then InCategory(books, categoryId.value) else books
  }

  /** The whole ordered result of `get_books`, before OFFSET and LIMIT. */
  function Ordered(books: map<int, Book>, categoryId: Option<int>, sortBy: string, sortOrder: string): seq<Book> {
    OrderBy(RowsById(Selected(books, categoryId)), ColumnNamed(sortBy), Sql.IsDescending(sortOrder))
  }

  lemma OrderedMembers(books: map<int, Book>, categoryId: Option<int>, sortBy: string, sortOrder: string, b: Book)
    ensures b in Ordered(books, categoryId, sortBy, sortOrder) <==>
      b in books.Values && (categoryId.Some? ==> b.categoryId == categoryId.value)
  {
    var rows := RowsById(Selected(books, categoryId));
    var o := Ordered(books, categoryId, sortBy, sortOrder);
    assert b in o <==> b in multiset(o);
    assert b in rows <==> b in multiset(rows);
    if categoryId.Some? && b in books.Values && b.categoryId == categoryId.value {
      var k := KeyOf(books, b);
      assert InCategory(books, categoryId.value)[k] == b;
    }
  }

  /** `get_books`: the books of the category when one is given, sorted on
      the column `sort_by` names (`id` when it names none), descending when
      `sort_order` is "desc" in any letter case, then OFFSET skip LIMIT limit. */
  function GetBooks(books: map<int, Book>, skip: nat, limit: nat, categoryId: Option<int>,
                    sortBy: string, sortOrder: string): (r: seq<Book>)
    ensures |r| <= limit
    ensures forall b :: b in r ==> b in books.Values && (categoryId.Some? ==> b.categoryId == categoryId.value)
    ensures SortedBy(r, ColumnNamed(sortBy), Sql.IsDescending(sortOrder))
    ensures |r| == Sql.PageLength(|Selected(books, categoryId)|, skip, limit)
  {
    var all := Ordered(books, categoryId, sortBy, sortOrder);
    assert |all| == |Selected(books, categoryId)| by {
      assert |multiset(all)| == |all|;
    }
    var r := Sql.Page(all, skip, limit);
    assert forall b :: b in r ==> b in all;
    assert forall b :: b in all ==> b in books.Values && (categoryId.Some? ==> b.categoryId == categoryId.value) by {
      forall b | b in all ensures b in books.Values && (categoryId.Some? ==> b.categoryId == categoryId.value) {
        OrderedMembers(books, categoryId, sortBy, sortOrder, b);
      }
    }
    assert forall i, j :: 0 <= i < j < |r| ==> r[i] == all[skip + i] && r[j] == all[skip + j];
    r
  }

  /** Pages (skip, k) and (skip + k, m) are consecutive slices of one sorted
      list: together they are page (skip, k + m), so paging neither skips
      nor repeats a book. */
  lemma GetBooksPagesTile(books: map<int, Book>, categoryId: Option<int>, sortBy: string, sortOrder: string,
                          skip: nat, k: nat, m: nat)
    ensures GetBooks(books, skip, k, categoryId, sortBy, sortOrder) + GetBooks(books, skip + k, m, categoryId, sortBy, sortOrder)
         == GetBooks(books, skip, k + m, categoryId, sortBy, sortOrder)
  {
    Sql.ConsecutivePages(Ordered(books, categoryId, sortBy, sortOrder), skip, k, m);
  }

  /** A first page at least as long as the table holds every selected book:
      the filter keeps exactly the books of the category. */
  lemma GetBooksFirstPageComplete(books: map<int, Book>, limit: nat, categoryId: Option<int>,
                                  sortBy: string, sortOrder: string)
    ensures limit >= |books| ==>
      forall b :: (b in books.Values && (categoryId.Some? ==> b.categoryId == categoryId.value)
        ==> b in GetBooks(books, 0, limit, categoryId, sortBy, sortOrder))
  {
    if limit < |books| {
      return;
    }
    var all := Ordered(books, categoryId, sortBy, sortOrder);
    assert |Selected(books, categoryId)| <= |books| by {
      assert Selected(books, categoryId).Keys <= books.Keys;
      SubsetSize(Selected(books, categoryId).Keys, books.Keys);
    }
    assert |all| == |Selected(books, categoryId)| by {
      assert |multiset(all)| == |all|;
    }
    assert Sql.Page(all, 0, limit) == all;
    forall b | b in books.Values && (categoryId.Some? ==> b.categoryId == categoryId.value)
      ensures b in GetBooks(books, 0, limit, categoryId, sortBy, sortOrder)
    {
      OrderedMembers(books, categoryId, sortBy, sortOrder, b);
    }
  }

  lemma SubsetSize(a: set<int>, b: set<int>)
    requires a <= b
    ensures |a| <= |b|
  {
    assert b == a + (b - a);
  }

  /** A `sort_by` that names no column sorts like `sort_by="id"`, and the
      direction depends only on `sort_order.lower()`. */
  lemma GetBooksFallbacks(books: map<int, Book>, skip: nat, limit: nat, categoryId: Option<int>,
                          sortBy: string, sortOrder: string, otherOrder: string)
    requires Sql.Lower(sortOrder) == Sql.Lower(otherOrder)
    ensures sortBy !in {"title", "description", "price", "url", "category_id"} ==>
      GetBooks(books, skip, limit, categoryId, sortBy, sortOrder) == GetBooks(books, skip, limit, categoryId, "id", sortOrder)
    ensures GetBooks(books, skip, limit, categoryId, sortBy, sortOrder) == GetBooks(books, skip, limit, categoryId, sortBy, otherOrder)
  {
  }

  // =====================================================================
  // search_books
  // =====================================================================

  /** `title ILIKE '%term%' OR description ILIKE '%term%'`; a NULL
      description matches nothing. */
  predicate Matches(b: Book, term: string, fold: char -> char) {
    || Sql.ILike(b.title, Sql.Surrounded(term), fold)
    || (b.description.Some? && Sql.ILike(b.description.value, Sql.Surrounded(term), fold))
  }

  /** For a term without `%` or `_`, a book matches exactly when its title or
      its description contains the term, ignoring case. */
  lemma MatchesIsContainment(b: Book, term: string, fold: char -> char)
    requires Sql.NoWildcards(term)
    ensures Matches(b, term, fold) <==>
      Sql.ContainsFolded(b.title, term, fold)
      || (b.description.Some? && Sql.ContainsFolded(b.description.value, term, fold))
  {
    Sql.SurroundedIsContainment(b.title, term, fold);
    if b.description.Some? {
      Sql.SurroundedIsContainment(b.description.value, term, fold);
    }
  }

  function Hits(rows: seq<Book>, term: string, fold: char -> char): (r: seq<Book>)
    ensures forall b :: b in r <==> b in rows && Matches(b, term, fold)
  {
    if rows == [] then []
    else
      assert forall b :: b in rows <==> b == rows[0] || b in rows[1..];
      (if Matches(rows[0], term, fold) then [rows[0]] else []) + Hits(rows[1..], term, fold)
  }

  /** `search_books`: the matching books, then OFFSET skip LIMIT limit. */
  function SearchBooks(books: map<int, Book>, term: string, skip: nat, limit: nat, fold: char -> char): (r: seq<Book>)
    ensures |r| <= limit
    ensures forall b :: b in r ==> b in books.Values && Matches(b, term, fold)
    ensures skip >= |books| ==> r == []
    ensures |r| == Sql.PageLength(|Matching(books, term, fold)|, skip, limit)
  {
    var hits := Hits(RowsById(books), term, fold);
    assert |hits| <= |books| by {
      HitsShorter(RowsById(books), term, fold);
    }
    assert |hits| == |Matching(books, term, fold)| by {
      HitCount(books, term, fold);
    }
    var r := Sql.Page(hits, skip, limit);
    assert forall b :: b in r ==> b in hits;
    r
  }

  /** Consecutive pages of `search_books` concatenate to the larger page:
      paging neither skips nor repeats a match. */
  lemma SearchPagesTile(books: map<int, Book>, term: string, fold: char -> char, skip: nat, k: nat, m: nat)
    ensures SearchBooks(books, term, skip, k, fold) + SearchBooks(books, term, skip + k, m, fold)
         == SearchBooks(books, term, skip, k + m, fold)
  {
    Sql.ConsecutivePages(Hits(RowsById(books), term, fold), skip, k, m);
  }

  /** A first page at least as long as the table finds every matching book. */
  lemma SearchFirstPageComplete(books: map<int, Book>, term: string, limit: nat, fold: char -> char)
    requires limit >= |books|
    ensures forall b :: b in books.Values && Matches(b, term, fold) ==> b in SearchBooks(books, term, 0, limit, fold)
  {
    var rows := RowsById(books);
    var hits := Hits(rows, term, fold);
    assert |hits| <= |rows| by { HitsShorter(rows, term, fold); }
    assert Sql.Page(hits, 0, limit) == hits;
  }

  lemma {:induction false} HitsShorter(rows: seq<Book>, term: string, fold: char -> char)
    ensures |Hits(rows, term, fold)| <= |rows|
  {
    if rows != [] {
      HitsShorter(rows[1..], term, fold);
    }
  }

  /** The books that match the search, under their keys. */
  function Matching(books: map<int, Book>, term: string, fold: char -> char): map<int, Book> {
    map k | k in books && Matches(books[k], term, fold) :: books[k]
  }

  /** The keys among `ids` that are in `keep`, in the same order. */
  function KeysIn(ids: seq<int>, keep: set<int>): (r: seq<int>)
    ensures forall i :: 0 <= i < |r| ==> r[i] in keep
  {
    if ids == [] then []
    else (if ids[0] in keep then [ids[0]] else []) + KeysIn(ids[1..], keep)
  }

  /** Filtering looked-up rows is looking up the keys of the matching books. */
  lemma {:induction false} HitsOfLookup(books: map<int, Book>, ids: seq<int>, term: string, fold: char -> char)
    requires forall i :: 0 <= i < |ids| ==> ids[i] in books
    ensures Hits(Lookup(books, ids), term, fold)
         == Lookup(Matching(books, term, fold), KeysIn(ids, Matching(books, term, fold).Keys))
  {
    if ids != [] {
      var m := Matching(books, term, fold);
      var rows := Lookup(books, ids);
      assert rows[1..] == Lookup(books, ids[1..]);
      HitsOfLookup(books, ids[1..], term, fold);
      var first := if ids[0] in m.Keys then [ids[0]] else [];
      var rest := KeysIn(ids[1..], m.Keys);
      assert Matches(books[ids[0]], term, fold) <==> ids[0] in m.Keys;
      if first != [] {
        assert m[ids[0]] == books[ids[0]];
        assert (first + rest)[1..] == rest;
      } else {
        assert first + rest == rest;
      }
    }
  }

  /** Keeping some of the sorted keys gives those keys sorted. */
  lemma {:induction false} SortedKeysIn(keys: set<int>, keep: set<int>)
    ensures KeysIn(SortedIds(keys), keep) == SortedIds(keys * keep)
    decreases |keys|
  {
    if keys == {} {
      assert keys * keep == {};
    } else {
      var k := Least(keys);
      var rest := keys - {k};
      calc {
        KeysIn(SortedIds(keys), keep);
        { SortedIdsFirst(keys); }
        KeysIn([k] + SortedIds(rest), keep);
        { KeysInFirst(k, SortedIds(rest), keep); }
        (if k in keep then [k] else []) + KeysIn(SortedIds(rest), keep);
        { SortedKeysIn(rest, keep); }
        (if k in keep then [k] else []) + SortedIds(rest * keep);
        { SortedIdsKept(keys, keep); }
        SortedIds(keys * keep);
      }
    }
  }

  /** The sorted kept keys start with the least key when it is kept. */
  lemma SortedIdsKept(keys: set<int>, keep: set<int>)
    requires keys != {}
    ensures SortedIds(keys * keep)
         == (if Least(keys) in keep then [Least(keys)] else []) + SortedIds((keys - {Least(keys)}) * keep)
  {
    var k := Least(keys);
    var rest := keys - {k};
    if k in keep {
      calc {
        SortedIds(keys * keep);
        { LeastOfSubset(keys, keys * keep); SortedIdsFirst(keys * keep); }
        [k] + SortedIds(keys * keep - {k});
        { assert keys * keep - {k} == rest * keep; }
        [k] + SortedIds(rest * keep);
      }
    } else {
      assert keys * keep == rest * keep;
    }
  }

  lemma SortedIdsFirst(keys: set<int>)
    requires keys != {}
    ensures SortedIds(keys) == [Least(keys)] + SortedIds(keys - {Least(keys)})
  {
  }

  lemma KeysInFirst(k: int, ids: seq<int>, keep: set<int>)
    ensures KeysIn([k] + ids, keep) == (if k in keep then [k] else []) + KeysIn(ids, keep)
  {
    assert ([k] + ids)[1..] == ids;
  }

  /** A subset that holds the least key has the same least key. */
  lemma LeastOfSubset(keys: set<int>, sub: set<int>)
    requires sub <= keys && keys != {} && Least(keys) in sub
    ensures Least(sub) == Least(keys)
  {
  }

  /** Reading a table in key order is looking up its sorted keys. */
  lemma RowsByIdIsLookup<T(!new)>(table: map<int, T>)
    ensures RowsById(table) == Lookup(table, SortedIds(table.Keys))
  {
    var ids := SortedIds(table.Keys);
    assert forall i :: 0 <= i < |ids| ==> ids[i] in table;
    var r := RowsById(table);
    var l := Lookup(table, ids);
    forall i | 0 <= i < |ids|
      ensures r[i] == l[i]
    {
    }
  }

  /** The search scans the table of matching books: its hits are that table
      read in key order, each matching book once. */
  lemma HitsAreMatchingTable(books: map<int, Book>, term: string, fold: char -> char)
    ensures Hits(RowsById(books), term, fold) == RowsById(Matching(books, term, fold))
  {
    var m := Matching(books, term, fold);
    var ids := SortedIds(books.Keys);
    assert forall i :: 0 <= i < |ids| ==> ids[i] in books;
    calc {
      Hits(RowsById(books), term, fold);
      { RowsByIdIsLookup(books); }
      Hits(Lookup(books, ids), term, fold);
      { HitsOfLookup(books, ids, term, fold); }
      Lookup(m, KeysIn(ids, m.Keys));
      { SortedKeysIn(books.Keys, m.Keys); MatchingWithin(books, term, fold); }
      Lookup(m, SortedIds(m.Keys));
      { RowsByIdIsLookup(m); }
      RowsById(m);
    }
  }

  lemma MatchingWithin(books: map<int, Book>, term: string, fold: char -> char)
    ensures books.Keys * Matching(books, term, fold).Keys == Matching(books, term, fold).Keys
  {
  }

  /** The search finds as many rows as there are matching books. */
  lemma HitCount(books: map<int, Book>, term: string, fold: char -> char)
    ensures |Hits(RowsById(books), term, fold)| == |Matching(books, term, fold)|
  {
    HitsAreMatchingTable(books, term, fold);
  }

  // =====================================================================
  // get_categories
  // =====================================================================

  /** `get_categories`: OFFSET skip LIMIT limit over the categories, taken
      in key order. */
  function GetCategories(categories: map<int, Category>, skip: nat, limit: nat): (r: seq<Category>)
    ensures |r| <= limit
    ensures forall c :: c in r ==> c in categories.Values
    ensures skip == 0 && limit >= |categories| ==> forall c :: c in categories.Values ==> c in r
    ensures |r| == Sql.PageLength(|categories|, skip, limit)
  {
    var rows := RowsById(categories);
    var r := Sql.Page(rows, skip, limit);
    assert forall c :: c in r ==> c in rows;
    assert skip == 0 && limit >= |categories| ==> r == rows;
    r
  }

  /** Consecutive pages of `get_categories` concatenate to the larger page. */
  lemma GetCategoriesPagesTile(categories: map<int, Category>, skip: nat, k: nat, m: nat)
    ensures GetCategories(categories, skip, k) + GetCategories(categories, skip + k, m)
         == GetCategories(categories, skip, k + m)
  {
    Sql.ConsecutivePages(RowsById(categories), skip, k, m);
  }

  // =====================================================================
  // get_books_with_category, get_category_with_books
  // =====================================================================

  /** A row of `get_books_with_category`. */
  datatype BookWithCategoryTitle = BookWithCategoryTitle(
    id: int,
    title: string,
    description: Option<string>,
    price: real,
    url: Option<string>,
    categoryId: int,
    categoryTitle: string)

  /** The inner join of the books with `categories` on `category_id`. */
  function JoinCategoryTitles(rows: seq<Book>, categories: map<int, Category>): (r: seq<BookWithCategoryTitle>)
    ensures |r| <= |rows|
    ensures forall row :: row in r ==> row.categoryId in categories && row.categoryTitle == categories[row.categoryId].title
    ensures forall row :: row in r ==> exists b :: b in rows && row == WithTitle(b, row.categoryTitle)
    ensures (forall b :: b in rows ==> b.categoryId in categories) ==> |r| == |rows|
    ensures forall b :: b in rows && b.categoryId in categories ==> WithTitle(b, categories[b.categoryId].title) in r
  {
    if rows == [] then []
    else
      var b := rows[0];
      assert forall x :: x in rows[1..] ==> x in rows;
      (if b.categoryId in categories then [WithTitle(b, categories[b.categoryId].title)] else [])
      + JoinCategoryTitles(rows[1..], categories)
  }

  function WithTitle(b: Book, categoryTitle: string): BookWithCategoryTitle {
    BookWithCategoryTitle(b.id, b.title, b.description, b.price, b.url, b.categoryId, categoryTitle)
  }

  /** `get_books_with_category`: every book with its category's title, then
      OFFSET skip LIMIT limit. */
  function GetBooksWithCategory(books: map<int, Book>, categories: map<int, Category>, skip: nat, limit: nat)
    : (r: seq<BookWithCategoryTitle>)
    ensures |r| <= limit
    ensures forall row :: row in r ==> row.categoryId in categories && row.categoryTitle == categories[row.categoryId].title
    ensures forall row :: row in r ==> exists b :: b in books.Values && row == WithTitle(b, row.categoryTitle)
    ensures ReferencesResolve(categories, books) ==> |r| == Sql.PageLength(|books|, skip, limit)
  {
    var rows := RowsById(books);
    var joined := JoinCategoryTitles(rows, categories);
    var r := Sql.Page(joined, skip, limit);
    assert forall row :: row in r ==> row in joined;
    assert forall b :: b in rows ==> b in books.Values;
    assert ReferencesResolve(categories, books) ==> |joined| == |books| by {
      if ReferencesResolve(categories, books) {
        JoinDropsNoBook(books, categories);
      }
    }
    r
  }

  /** Consecutive pages of `get_books_with_category` concatenate to the
      larger page. */
  lemma GetBooksWithCategoryPagesTile(books: map<int, Book>, categories: map<int, Category>, skip: nat, k: nat, m: nat)
    ensures GetBooksWithCategory(books, categories, skip, k) + GetBooksWithCategory(books, categories, skip + k, m)
         == GetBooksWithCategory(books, categories, skip, k + m)
  {
    Sql.ConsecutivePages(JoinCategoryTitles(RowsById(books), categories), skip, k, m);
  }

  /** With every foreign key resolving, the join drops no book: each
      stored book has its row, with its own category's title. */
  lemma JoinDropsNoBook(books: map<int, Book>, categories: map<int, Category>)
    requires ReferencesResolve(categories, books)
    ensures forall b :: b in books.Values ==>
      b.categoryId in categories && WithTitle(b, categories[b.categoryId].title) in JoinCategoryTitles(RowsById(books), categories)
    ensures |JoinCategoryTitles(RowsById(books), categories)| == |books|
  {
    var rows := RowsById(books);
    forall b | b in rows ensures b.categoryId in categories {
      var k := KeyOf(books, b);
    }
  }

  /** With every foreign key resolving, a first page no shorter than the
      table carries every stored book with its category's title. */
  lemma GetBooksWithCategoryFirstPageComplete(books: map<int, Book>, categories: map<int, Category>, limit: nat)
    requires ReferencesResolve(categories, books)
    requires limit >= |books|
    ensures forall b :: b in books.Values ==>
      b.categoryId in categories && WithTitle(b, categories[b.categoryId].title) in GetBooksWithCategory(books, categories, 0, limit)
  {
    var joined := JoinCategoryTitles(RowsById(books), categories);
    JoinDropsNoBook(books, categories);
    assert Sql.Page(joined, 0, limit) == joined;
  }

  /** One entry of the `books` list of `get_category_with_books`. */
  datatype BookSummary = BookSummary(id: int, title: string, price: real)

  /** The result of `get_category_with_books`. */
  datatype CategoryWithBooks = CategoryWithBooks(id: int, title: string, books: seq<BookSummary>)

  function Summary(b: Book): BookSummary {
    BookSummary(b.id, b.title, b.price)
  }

  /** `get_category_with_books`: None for an unknown category; otherwise its
      id and title and a summary of exactly the books whose `category_id` is
      that category. */
  function GetCategoryWithBooks(categories: map<int, Category>, books: map<int, Book>, categoryId: int)
    : (r: Option<CategoryWithBooks>)
    ensures r.None? <==> categoryId !in categories
    ensures r.Some? ==> r.value.id == categories[categoryId].id && r.value.title == categories[categoryId].title
    ensures r.Some? ==> forall s :: s in r.value.books <==>
      exists k :: k in books && books[k].categoryId == categoryId && s == Summary(books[k])
    ensures r.Some? ==> |r.value.books| == |InCategory(books, categoryId)|
  {
    if categoryId !in categories then None
    else
      var own := InCategory(books, categoryId);
      var rows := RowsById(own);
      var summaries := seq(|rows|, i requires 0 <= i < |rows| => Summary(rows[i]));
      assert forall s :: s in summaries <==> exists k :: k in books && books[k].categoryId == categoryId && s == Summary(books[k]) by {
        forall s | s in summaries
          ensures exists k :: k in books && books[k].categoryId == categoryId && s == Summary(books[k])
        {
          var i :| 0 <= i < |rows| && summaries[i] == s;
          assert rows[i] in own.Values;
          var k := KeyOf(own, rows[i]);
          assert books[k] == rows[i];
        }
        forall s | exists k :: k in books && books[k].categoryId == categoryId && s == Summary(books[k])
          ensures s in summaries
        {
          var k :| k in books && books[k].categoryId == categoryId && s == Summary(books[k]);
          assert own[k] == books[k];
          assert books[k] in rows;
          var i :| 0 <= i < |rows| && rows[i] == books[k];
          assert summaries[i] == s;
        }
      }
      Some(CategoryWithBooks(categories[categoryId].id, categories[categoryId].title, summaries))
  }

  // =====================================================================
  // update_book's keyword arguments
  // =====================================================================

  /** One `key=value` keyword argument of `update_book` that names a column
      attribute of `Book`. */
  datatype Assignment =
    | SetTitle(title: string)
    | SetDescription(description: Option<string>)
    | SetPrice(price: real)
    | SetUrl(url: Option<string>)
    | SetCategoryId(categoryId: int)

  /** The attribute name the keyword argument is passed under. */
  function Key(a: Assignment): string {
    match a
    case SetTitle(_) => "title"
    case SetDescription(_) => "description"
    case SetPrice(_) => "price"
    case SetUrl(_) => "url"
    case SetCategoryId(_) => "category_id"
  }

  /** `setattr(db_book, key, value)`. */
  function Assign(b: Book, a: Assignment): Book {
    match a
    case SetTitle(t) => b.(title := t)
    case SetDescription(d) => b.(description := d)
    case SetPrice(p) => b.(price := p)
    case SetUrl(u) => b.(url := u)
    case SetCategoryId(c) => b.(categoryId := c)
  }

  /** The book after the `setattr` calls for `kwargs`, first to last, as
      the loop over `kwargs.items()` makes them. */
  function AssignAll(b: Book, kwargs: seq<Assignment>): Book
    decreases |kwargs|
  {
    if kwargs == [] then b
    else AssignAll(Assign(b, kwargs[0]), kwargs[1..])
  }

  /** The keyword arguments change only the fields they name: the id never
      changes, and a field no argument names keeps its value. */
  lemma {:induction false} UnnamedFieldsKept(b: Book, kwargs: seq<Assignment>)
    ensures AssignAll(b, kwargs).id == b.id
    ensures (forall i :: 0 <= i < |kwargs| ==> !kwargs[i].SetTitle?) ==> AssignAll(b, kwargs).title == b.title
    ensures (forall i :: 0 <= i < |kwargs| ==> !kwargs[i].SetDescription?) ==> AssignAll(b, kwargs).description == b.description
    ensures (forall i :: 0 <= i < |kwargs| ==> !kwargs[i].SetPrice?) ==> AssignAll(b, kwargs).price == b.price
    ensures (forall i :: 0 <= i < |kwargs| ==> !kwargs[i].SetUrl?) ==> AssignAll(b, kwargs).url == b.url
    ensures (forall i :: 0 <= i < |kwargs| ==> !kwargs[i].SetCategoryId?) ==> AssignAll(b, kwargs).categoryId == b.categoryId
    decreases |kwargs|
  {
    if kwargs != [] {
      var rest := kwargs[1..];
      UnnamedFieldsKept(Assign(b, kwargs[0]), rest);
      assert forall i :: 0 <= i < |rest| ==> rest[i] == kwargs[i + 1];
    }
  }

  /** One more keyword argument is one more `setattr`, made after all the
      others: the loop can stop after any prefix and resume. */
  lemma {:induction false} AssignAllAppend(b: Book, kwargs: seq<Assignment>, a: Assignment)
    ensures AssignAll(b, kwargs + [a]) == Assign(AssignAll(b, kwargs), a)
    decreases |kwargs|
  {
    if kwargs == [] {
      assert [] + [a] == [a];
      assert [a][1..] == [];
    } else {
      AssignAllAppend(Assign(b, kwargs[0]), kwargs[1..], a);
      assert (kwargs + [a])[0] == kwargs[0];
      assert (kwargs + [a])[1..] == kwargs[1..] + [a];
    }
  }

  /** Running the loop over two argument lists in turn is running it over
      their concatenation. */
  lemma {:induction false} AssignAllConcat(b: Book, first: seq<Assignment>, second: seq<Assignment>)
    ensures AssignAll(b, first + second) == AssignAll(AssignAll(b, first), second)
    decreases |first|
  {
    if first == [] {
      assert [] + second == second;
    } else {
      AssignAllConcat(Assign(b, first[0]), first[1..], second);
      assert (first + second)[0] == first[0];
      assert (first + second)[1..] == first[1..] + second;
    }
  }

  // =====================================================================
  // The catalog and its writes
  // =====================================================================

  /** The outcome of a write: the committed row, `None` from the repository
      (no such id), or a commit the storage refused for breaking a declared
      constraint (an exception in the source). */
  datatype Write<T> = Done(value: T) | Missing | Rejected

  /** The two tables, and the next primary key each will hand out. */
  class Catalog {
    var categories: map<int, Category>
    var books: map<int, Book>
    var nextCategoryId: int
    var nextBookId: int

    ghost predicate Valid()
      reads this
    {
      && Consistent(categories, books)
      && 1 <= nextCategoryId && 1 <= nextBookId
      && (forall k :: k in categories ==> k < nextCategoryId)
      && (forall k :: k in books ==> k < nextBookId)
    }

    constructor ()
      ensures Valid()
      ensures categories == map[] && books == map[]
    {
      categories := map[];
      books := map[];
      nextCategoryId := 1;
      nextBookId := 1;
    }

    /** `create_category`. The commit fails when the title is taken or too long. */
    method CreateCategory(title: string) returns (r: Write<Category>)
      requires Valid()
      modifies this
      ensures Valid()
      ensures !r.Missing?
      ensures r.Rejected? <==> TitleTaken(old(categories), title) || !TitleFits(title)
      ensures r.Rejected? ==> categories == old(categories) && books == old(books)
      ensures r.Done? ==>
        && r.value.title == title
        && r.value.id !in old(categories)
        && categories == old(categories)[r.value.id := r.value]
        && books == old(books)
        && GetCategory(categories, r.value.id) == Some(r.value)
    {
      if TitleTaken(categories, title) || !TitleFits(title) {
        return Rejected;
      }
      var c := Category(nextCategoryId, title);
      StoreKeepsTitlesUnique(categories, c.id, c);
      categories := categories[c.id := c];
      nextCategoryId := nextCategoryId + 1;
      r := Done(c);
    }

    /** `update_category`: None for an unknown id; otherwise the title is
      replaced, and the commit fails when another category holds the title
      or the title is too long. */
    method UpdateCategory(categoryId: int, title: string) returns (r: Write<Category>)
      requires Valid()
      modifies this
      ensures Valid()
      ensures r.Missing? <==> categoryId !in old(categories)
      ensures r.Rejected? <==> categoryId in old(categories) && (TitleHeldByOther(old(categories), title, categoryId) || !TitleFits(title))
      ensures !r.Done? ==> categories == old(categories) && books == old(books)
      ensures r.Done? ==>
        && r.value == Category(categoryId, title)
        && categories == old(categories)[categoryId := r.value]
        && books == old(books)
    {
      if categoryId !in categories {
        return Missing;
      }
      if TitleHeldByOther(categories, title, categoryId) || !TitleFits(title) {
        return Rejected;
      }
      var c := Category(categoryId, title);
      StoreKeepsTitlesUnique(categories, categoryId, c);
      categories := categories[categoryId := c];
      r := Done(c);
    }

    /** `delete_category`: true iff the category existed; it goes, and its
      books go with it. */
    method DeleteCategory(categoryId: int) returns (deleted: bool)
      requires Valid()
      modifies this
      ensures Valid()
      ensures deleted == (categoryId in old(categories))
      ensures categories == old(categories) - {categoryId}
      ensures books == Cascade(old(books), categoryId)
      ensures GetCategory(categories, categoryId) == None
    {
      if categoryId !in categories {
        CascadeOfUnreferenced(categories, books, categoryId);
        assert categories - {categoryId} == categories;
        return false;
      }
      CascadeLeavesNoOrphans(categories, books, categoryId);
      books := Cascade(books, categoryId);
      categories := categories - {categoryId};
      deleted := true;
    }

    /** `create_book`. The commit fails when the category does not exist or
      a string is too long for its column. */
    method CreateBook(title: string, price: real, categoryId: int, description: Option<string>, url: Option<string>)
      returns (r: Write<Book>)
      requires Valid()
      modifies this
      ensures Valid()
      ensures !r.Missing?
      ensures r.Rejected? <==> !BookAccepted(old(categories), Book(0, title, description, price, url, categoryId))
      ensures r.Rejected? ==> categories == old(categories) && books == old(books)
      ensures r.Done? ==>
        && r.value == Book(r.value.id, title, description, price, url, categoryId)
        && r.value.id !in old(books)
        && books == old(books)[r.value.id := r.value]
        && categories == old(categories)
        && GetBook(books, r.value.id) == Some(r.value)
    {
      var b := Book(nextBookId, title, description, price, url, categoryId);
      if !BookAccepted(categories, b) {
        return Rejected;
      }
      books := books[b.id := b];
      nextBookId := nextBookId + 1;
      r := Done(b);
    }

    /** `update_book`: None for an unknown id; otherwise `setattr` for each
      keyword argument in turn, and the commit fails when the result is not
      an acceptable row. No other book and no category changes. */
    method UpdateBook(bookId: int, kwargs: seq<Assignment>) returns (r: Write<Book>)
      requires Valid()
      modifies this
      ensures Valid()
      ensures r.Missing? <==> bookId !in old(books)
      ensures r.Rejected? <==> bookId in old(books) && !BookAccepted(old(categories), AssignAll(old(books)[bookId], kwargs))
      ensures !r.Done? ==> categories == old(categories) && books == old(books)
      ensures r.Done? ==>
        && r.value == AssignAll(old(books)[bookId], kwargs)
        && books == old(books)[bookId := r.value]
        && categories == old(categories)
    {
      if bookId !in books {
        return Missing;
      }
      var original := books[bookId];
      var b := original;
      var i := 0;
      while i < |kwargs|
        invariant 0 <= i <= |kwargs|
        invariant b == AssignAll(original, kwargs[..i])
        invariant unchanged(this)
      {
        AssignAllAppend(original, kwargs[..i], kwargs[i]);
        assert kwargs[..i + 1] == kwargs[..i] + [kwargs[i]];
        b := Assign(b, kwargs[i]);
        i := i + 1;
      }
      assert kwargs[..i] == kwargs;
      if !BookAccepted(categories, b) {
        return Rejected;
      }
      UnnamedFieldsKept(original, kwargs);
      books := books[bookId := b];
      r := Done(b);
    }

    /** `delete_book`: true iff the book existed; afterwards the id resolves
      to nothing and every other book is unchanged. */
    method DeleteBook(bookId: int) returns (deleted: bool)
      requires Valid()
      modifies this
      ensures Valid()
      ensures deleted == (bookId in old(books))
      ensures books == old(books) - {bookId}
      ensures categories == old(categories)
      ensures GetBook(books, bookId) == None
    {
      deleted := bookId in books;
      books := books - {bookId};
    }
  }
}
