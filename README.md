# Catalog store: categories and books

This project models the store of a small online book catalog. It has
two tables. `categories` holds rows with an id and a unique title.
`books` holds rows with an id, title, optional description, price,
optional url and a required `category_id` that refers to a category.
Deleting a category deletes its books as well (cascade). The model
covers three layers of the application:

- **Tables** (`Models`, from `app/db/models.py`): the row types and their
  column constraints. These are `String(255)` titles, a `String(500)` url,
  unique category titles and the foreign key from `books.category_id` to
  `categories.id`, gathered in one predicate, `Consistent`. `Cascade` is
  the set of books that survive a category deletion.
- **Request bodies** (`Schemas`, from `app/schemas.py`): the
  `CategoryCreate`, `CategoryUpdate`, `BookCreate` and `BookUpdate`
  bodies with their field bounds. A body that fails a bound is refused
  with 422 before the handler runs.
- **Repository** (`Crud`, from `app/db/crud.py`):
  - Read-only queries are functions of the table contents:
    `get_books` (optional category filter, ORDER BY any column in
    either direction, OFFSET/LIMIT), `search_books` (ILIKE on title or
    description), `get_categories`, the join in
    `get_books_with_category` and the nested `get_category_with_books`.
  - The writes are methods of the class `Catalog`. Its fields are the two
    tables (`map<int, Category>`, `map<int, Book>`) and the next primary
    key of each table. Its invariant `Valid()` is `Consistent` plus keys
    that stay below their counters.
  - `update_book`'s `setattr` loop over its keyword arguments is a `while`
    loop. It is proved equal to `AssignAll`, the in-order application of
    the assignments.
- **HTTP handlers** (`CategoriesApi`, `BooksApi`, from `app/api/`): each
  handler validates its input, calls the repository, and maps the outcome
  to a reply. The reply is 200, 201, 204, 400, 404, 422 or 500 (`Http`).
  Each writing handler states which status it returns in which case, and
  the exact new tables in each case. Each one proves that the commit
  cannot fail: its own checks leave no declared constraint for the commit
  to break. Each one also keeps the bounds of the request bodies on every
  stored row (`Schemas.BooksWithinBounds`, which includes a price above 0,
  and `Schemas.CategoriesWithinBounds`). Of those bounds, a non-empty
  title, a price above 0 and a category id of at least 1 are enforced only
  by the request bodies; of the bounds, the storage enforces only the
  `String(n)` lengths.

SQL semantics the repository relies on are in `Sql`:
- lexicographic text order, with NULL first in ascending order;
- `lower()` on the sort direction;
- the ILIKE matcher with `%` and `_`;
- OFFSET/LIMIT as `Page`.

`BooksApi.FictionScenario` runs the handlers on an empty catalog. Creating
the category "Fiction" and the book "Dune" succeeds. A body with price -5
fails `gt=0` (app/schemas.py:34) and gets 422 before the handler runs.
Once the category is deleted, "Dune" gives 404.

## Model

| member | source | states |
|---|---|---|
| Sql.TextLeTotal | app/db/crud.py:39-43 | Any two titles, descriptions or urls are comparable under ORDER BY on a text column |
| Sql.TextLeTransitive | app/db/crud.py:39-43 | The text order used by ORDER BY is transitive |
| Sql.TextLeAntisymmetric | app/db/crud.py:39-43 | Two texts that order each way are equal, so ties occur only between equal values |
| Sql.NullableTextLeTotal | app/db/models.py:20-22 | With NULL placed first, the nullable description and url columns are totally ordered |
| Sql.NullableTextLeTransitive | app/db/models.py:20-22 | The NULL-first order on nullable text columns is transitive |
| Sql.DescendingInAnyCase | app/db/crud.py:40 | `sort_order.lower() == "desc"` holds exactly for the four letters d, e, s, c in any mix of case |
| Sql.PercentMatchesAll | app/db/crud.py:73-74 | The pattern `%` matches every string |
| Sql.PrefixThenPercent | app/db/crud.py:73-74 | `term%` matches exactly the strings that start with term, compared case-insensitively, when term has no wildcard |
| Sql.LeadingPercent | app/db/crud.py:73-74 | `%rest` matches s exactly when rest matches some suffix of s |
| Sql.SurroundedIsContainment | app/db/crud.py:73-74 | `ILIKE '%term%'` holds exactly when term occurs in the string, compared case-insensitively, when term has no wildcard |
| Sql.Page | app/db/crud.py:44 | OFFSET skip LIMIT limit returns at most limit rows, exactly the rows from position skip on, and the exact count left after skip |
| Sql.ConsecutivePages | app/db/crud.py:44 | The page of k rows at skip, followed by the page of m rows at skip + k, is the page of k + m rows at skip |
| Models.CascadeLeavesNoOrphans | app/db/models.py:10 | Deleting a category with its books from consistent tables leaves consistent tables (no orphan book), keeping exactly the books of other categories, unchanged |
| Models.CascadeOfUnreferenced | app/db/models.py:23 | When the foreign key holds and the category does not exist, the cascade removes no book |
| Models.StoreKeepsTitlesUnique | app/db/models.py:9 | Storing a category whose title no other category holds keeps `unique=True` on titles |
| Schemas.ValidCreateFitsColumns | app/schemas.py:32-36 | A body that passes validation fits the `String(255)` and `String(500)` columns and names a positive category id |
| Crud.RowsById | app/db/crud.py:92 | A table read without ORDER BY yields every row exactly once, and nothing else |
| Crud.GetBook | app/db/crud.py:25-26 | Some iff a book has that id, and then the stored row |
| Crud.GetCategory | app/db/crud.py:82-83 | Some iff a category has that id, and then the stored row |
| Crud.GetCategoryByTitle | app/db/crud.py:84-85 | Finds a category iff one has exactly that title (case-sensitive), and what it finds is a stored category with that title |
| Crud.TitleLookupFindsHolder | app/api/categories.py:87-94 | On consistent tables, "found a category with a different id" holds iff another category holds the title. Looking up a category's own title finds that category |
| Crud.ColumnNamed | app/db/crud.py:39 | `getattr(Book, sort_by, Book.id)` falls back to the id column exactly when sort_by names no other column |
| Crud.BeforeTotal | app/db/crud.py:39-43 | Any two books are ordered one way or the other, by any column and in either direction |
| Crud.BeforeTransitive | app/db/crud.py:39-43 | The ORDER BY order on books is transitive for every column and direction |
| Crud.Insert | app/db/crud.py:41-43 | Inserting into an ordered list adds exactly that book (multiset) |
| Crud.InsertKeepsSorted | app/db/crud.py:41-43 | Inserting into a list ordered by the column keeps it ordered |
| Crud.OrderBy | app/db/crud.py:41-43 | ORDER BY returns a permutation of its input, ordered by the column in the requested direction |
| Crud.OrderedMembers | app/db/crud.py:36-43 | Before paging, the ordered query holds exactly the stored books that pass the category filter |
| Crud.GetBooks | app/db/crud.py:28-44 | `get_books` returns books that are each stored and in the requested category, ordered by the requested column and direction. It returns exactly as many as OFFSET skip LIMIT limit leaves of the books in the category (all books when none is given), so never more than limit |
| Crud.GetBooksPagesTile | app/db/crud.py:44 | Consecutive pages of `get_books` concatenate to the larger page: paging neither skips nor repeats a book |
| Crud.GetBooksFirstPageComplete | app/db/crud.py:36-44 | With skip 0 and a limit no smaller than the table, every stored book in the category is returned |
| Crud.GetBooksFallbacks | app/db/crud.py:39-43 | An unknown sort_by orders as `id` does, and sort orders equal after `lower()` give the same result |
| Crud.MatchesIsContainment | app/db/crud.py:72-75 | A book matches the search iff the term occurs, case-insensitively, in its title or in its non-NULL description (term without wildcards) |
| Crud.Hits | app/db/crud.py:72-75 | The filter keeps exactly the rows that match the term |
| Crud.HitsShorter | app/db/crud.py:72-75 | The filter never yields more rows than it is given |
| Crud.SearchBooks | app/db/crud.py:66-75 | `search_books` returns books that are each stored and match the term. It returns exactly as many as OFFSET skip LIMIT limit leaves of the matching books, so never more than limit, and none once skip reaches the table size |
| Crud.HitsAreMatchingTable | app/db/crud.py:72-75 | Filtering the table read in key order gives the table of matching books read in key order: each matching book once, and nothing else |
| Crud.HitCount | app/db/crud.py:72-75 | The filter yields exactly as many rows as there are matching books |
| Crud.SearchPagesTile | app/db/crud.py:75 | Consecutive pages of `search_books` concatenate to the larger page: paging neither skips nor repeats a match |
| Crud.SearchFirstPageComplete | app/db/crud.py:66-75 | With skip 0 and a large enough limit, every stored book that matches is returned |
| Crud.GetCategories | app/db/crud.py:87-92 | Exactly as many categories as OFFSET skip LIMIT limit leaves of the table, all stored. With skip 0 and a large enough limit, all of them |
| Crud.GetCategoriesPagesTile | app/db/crud.py:92 | Consecutive pages of `get_categories` concatenate to the larger page |
| Crud.JoinCategoryTitles | app/db/crud.py:113-131 | Each joined row is one of the input books with the title of its own category. Every input book whose category exists has its row. No more rows than books, and exactly as many when all references resolve |
| Crud.GetBooksWithCategory | app/db/crud.py:112-131 | At most limit rows, each a stored book carrying its category's title. When the foreign key holds, exactly as many rows as OFFSET skip LIMIT limit leaves of the books |
| Crud.GetBooksWithCategoryPagesTile | app/db/crud.py:119 | Consecutive pages of `get_books_with_category` concatenate to the larger page |
| Crud.JoinDropsNoBook | app/db/crud.py:116-119 | On tables where the foreign key holds, every stored book has its row in the inner join, with its category's title, and the join has one row per book |
| Crud.GetBooksWithCategoryFirstPageComplete | app/db/crud.py:112-131 | On tables where the foreign key holds, a first page no shorter than the table carries every stored book with its category's title |
| Crud.GetCategoryWithBooks | app/db/crud.py:133-149 | None iff the category does not exist. Otherwise its id and title, and a summary (id, title, price) exactly for each book of that category, one entry per book |
| Crud.UnnamedFieldsKept | app/db/crud.py:53-55 | `setattr` over the keyword arguments never changes the id, and leaves every field no argument names unchanged |
| Crud.AssignAllAppend | app/db/crud.py:53-55 | The loop, which runs first to last, can stop after any prefix of the keyword arguments and resume: one more argument is one more `setattr` on the result so far |
| Crud.AssignAllConcat | app/db/crud.py:53-55 | Running the `setattr` loop over two argument lists in turn is the same as running it over their concatenation |
| Crud.Catalog.CreateCategory | app/db/crud.py:76-81 | Refused iff the title is taken or too long, with the tables unchanged. Otherwise a fresh id is added with that title, and nothing else changes |
| Crud.Catalog.UpdateCategory | app/db/crud.py:94-104 | None iff the id is unknown. Refused iff another category holds the title or it is too long. Otherwise only that category's title changes |
| Crud.Catalog.DeleteCategory | app/db/crud.py:105-111 | True iff the category existed. It is removed, and the books become exactly the cascade of the old books |
| Crud.Catalog.CreateBook | app/db/crud.py:5-23 | Refused iff the category is missing or a string is too long. Otherwise a book with exactly the given fields is stored under a fresh id |
| Crud.Catalog.UpdateBook | app/db/crud.py:46-58 | None iff the id is unknown. Otherwise the book becomes the in-order application of the keyword arguments, or is refused if that breaks a constraint. No other row changes |
| Crud.Catalog.DeleteBook | app/db/crud.py:59-65 | True iff the book existed. Afterwards it does not resolve, and no other row changes |
| CategoriesApi.ReadCategories | app/api/categories.py:12-25 | 422 iff skip < 0 or limit is outside 1..1000. Otherwise exactly `get_categories` for that page: at most limit stored categories, and all of them when skip is 0 and the limit is at least the table size |
| CategoriesApi.ReadCategory | app/api/categories.py:28-44 | 404 iff the id is unknown, otherwise that category |
| CategoriesApi.CreateCategory | app/api/categories.py:47-65 | 422 for a bad title, 400 iff the title is taken (tables unchanged), otherwise 201 with a new category under a fresh id. Stored titles stay within 1..255 characters |
| CategoriesApi.UpdateCategory | app/api/categories.py:68-108 | 422, then 404, then 400 iff another category holds the new title. Otherwise 200 with the title replaced (`title or current title`). The commit cannot fail. Stored titles stay non-empty and within bounds |
| CategoriesApi.DeleteCategory | app/api/categories.py:111-137 | 404 iff the id is unknown. Otherwise 204, the category is gone, and each old book no longer resolves iff it belonged to that category. The bounds on the remaining rows are kept |
| BooksApi.ReadBooks | app/api/books.py:12-32 | 422 iff the paging or category bounds fail. Otherwise exactly `get_books` in id-ascending order: at most limit stored books, all in the category, and all of them when skip is 0 and the limit is at least the table size |
| BooksApi.ReadBook | app/api/books.py:35-51 | 404 iff the id is unknown, otherwise that book |
| BooksApi.CreateBook | app/api/books.py:54-83 | 422 for a bad body, 400 iff the category does not exist (nothing stored), otherwise 201 with a book made of the body's fields under a fresh id. Every stored book stays within the create bounds (price above 0) |
| BooksApi.UpdateArgsNameSuppliedFields | app/api/books.py:119-129 | The keyword arguments name exactly the fields the request supplies (not None), one for each, each under a key of its own |
| BooksApi.UpdateArgsPatch | app/api/books.py:119-131 | Applied with `setattr`, the keyword arguments give `Patched`, which replaces the supplied fields and keeps every other field |
| BooksApi.UpdateData | app/api/books.py:119-129 | Building `update_data` one conditional insertion at a time gives exactly those arguments, and they patch the book |
| BooksApi.PatchedKeepsCreateBounds | app/schemas.py:44-50 | A valid update of a book within the create bounds keeps it within them. An update that supplies every required field is valid iff the book it produces is within the create bounds |
| BooksApi.PatchedIsAccepted | app/api/books.py:102-131 | After the handler's checks, the patched book is a row the storage accepts |
| BooksApi.UpdateBook | app/api/books.py:86-139 | 422, then 404, then 400 iff a supplied category does not exist. Otherwise 200 with exactly the supplied fields replaced. A stored description or url is never cleared. The commit cannot fail. Every stored book stays within the create bounds (price above 0) |
| BooksApi.DeleteBook | app/api/books.py:142-166 | 404 iff the id is unknown, otherwise 204. Only that book is removed, and the bounds on the rest are kept |
| BooksApi.FictionScenario | app/api/books.py:54-83 | On an empty catalog: creating "Fiction" and then "Dune" at 450.0 succeeds, a book at price -5 is refused with 422, and after the category is deleted "Dune" gives 404 |

## Left out

- `app/db/db.py` is not part of this model. The storage it configures is assumed to enforce every declared constraint: unique titles, the foreign key, and the `String(n)` lengths. A commit that breaks one is `Rejected`, which stands for the exception that becomes a 500. The handlers prove that this cannot happen after their own checks.
- `app/main.py`, `app/main_api.py`, `run_api.py` and `app/init_db.py` (application wiring, server start-up, seeding) are outside the core.
- Sessions, transactions and concurrent requests are not modelled: each repository call is one atomic step on the two tables.
- `price` is a `Float`, modelled as a `real`. Float rounding is not modelled.
- FastAPI validates each returned row again against the response schema (`schemas.Category`, `schemas.Book`, app/schemas.py:22-26, :53-58). A row that fails turns the reply into a 500, after any commit. The model assumes this never happens, for two reasons:
  - The `created_at` field of those schemas (app/schemas.py:25, :56) is required, and `app/db/models.py` declares no such column. The model assumes that the `Base` of `app/db/db.py` supplies it. Timestamps are not modelled.
  - The response schemas inherit the bounds of `CategoryBase` and `BookBase` (app/schemas.py:9, :32-36): a title of 1 to 255 characters, a price above 0, a url of at most 500 characters and a category id of at least 1. A reply also needs every row it carries within those bounds. A stored book with an empty title or a price of 0 or less makes `read_book`, `read_books` and `update_book` answer 500 where the model answers 200; a category with an empty title does the same to `read_category` and `read_categories`. The writing handlers keep every stored row within the bounds (`Schemas.BooksWithinBounds`, `Schemas.CategoriesWithinBounds` in their contracts), so such a row can only be written around the handlers. The read handlers assume there is none.
- BooksApi.ReadBooks and CategoriesApi.ReadCategories: the Query defaults `skip=0` and `limit=100` (app/api/books.py:14-15, app/api/categories.py:14-15) are left to the caller. The model takes both values as explicit arguments.
- Crud.Catalog.UpdateBook: the keyword arguments are limited to the five column fields. A key `hasattr` rejects (which the loop skips), a non-column attribute, setting `id` or a relationship through `setattr`, and passing None to a non-nullable column are not modelled. The handler never sends any of these.
- Crud.ColumnNamed: a `sort_by` that names a non-column attribute of `Book` (a relationship or a method) is treated as unknown and falls back to `id`. The source would raise an error there. No handler passes `sort_by`.
- Crud.OrderBy: the order among rows with equal sort keys is left unspecified. The model picks one insertion order. Collations other than code-point order are not modelled, and NULL sorts first in ascending order.
- Crud.RowsById: queries without ORDER BY are taken in primary-key order. The database promises no order there.
- Crud.SearchBooks: case folding is a parameter `fold` rather than a fixed Unicode table. The ILIKE escape character is not modelled. A search term containing `%` or `_` acts as a wildcard, as it does in the source.
- Sql.IsDescending: `str.lower()` is modelled for ASCII letters only.
- Crud.Catalog.CreateCategory: ids come from a counter and are never reused. SQLite's possible reuse of a deleted largest rowid is not modelled.
- ORM object identity, `refresh`, and the lazy `category` relationship of a loaded book are not modelled. Results are values.
