/** The `/books` request handlers: each checks, then calls the repository,
    and maps the outcome to a reply. */
module BooksApi {
  import opened Wrappers
  import opened Models
  import opened Schemas
  import opened Http
  import Crud
  import Sql
  import CategoriesApi

  /** `category_id: Query(None, ge=1)`. */
  predicate CategoryFilterValid(categoryId: Option<int>) {
    categoryId.Some? ==> CategoryIdValid(categoryId.value)
  }

  /** `read_books`: `get_books` with its default order, id ascending. */
  function ReadBooks(books: map<int, Book>, skip: int, limit: int, categoryId: Option<int>): (r: Reply<seq<Book>>)
    ensures r.Ok? || r.Unprocessable?
    ensures r.Ok? <==> PagingValid(skip, limit) && CategoryFilterValid(categoryId)
    ensures r.Ok? ==>
      && |r.value| <= limit
      && (forall b :: b in r.value ==> b in books.Values && (categoryId.Some? ==> b.categoryId == categoryId.value))
      && forall i, j :: 0 <= i < j < |r.value| ==> r.value[i].id <= r.value[j].id
    ensures r.Ok? ==> r.value == Crud.GetBooks(books, skip, limit, categoryId, "id", "asc")
    ensures r.Ok? && skip == 0 && limit >= |books| ==>
      forall b :: b in books.Values && (categoryId.Some? ==> b.categoryId == categoryId.value) ==> b in r.value
  {
    if !(PagingValid(skip, limit) && CategoryFilterValid(categoryId)) then Unprocessable
    else
      var page := Crud.GetBooks(books, skip, limit, categoryId, "id", "asc");
      assert !Sql.IsDescending("asc") by {
        Sql.DescendingInAnyCase("asc");
      }
      Crud.GetBooksFirstPageComplete(books, limit, categoryId, "id", "asc");
      Ok(page)
  }

  /** `read_book`: 404 when the id does not resolve. */
  function ReadBook(books: map<int, Book>, bookId: int): (r: Reply<Book>)
    ensures r.Ok? || r.NotFound?
    ensures r.NotFound? <==> bookId !in books
    ensures r.Ok? ==> r.value == books[bookId]
  {
    match Crud.GetBook(books, bookId)
    case None => NotFound
    case Some(b) => Ok(b)
  }

  /** `create_book`: 400 and no book stored when the category does not
      exist; otherwise 201 with a book made of exactly the request's fields
      under a fresh id. */
  method CreateBook(store: Crud.Catalog, req: BookCreate) returns (r: Reply<Book>)
    requires store.Valid()
    modifies store
    ensures store.Valid()
    ensures r.Unprocessable? <==> !ValidBookCreate(req)
    ensures r.BadRequest? <==> ValidBookCreate(req) && req.categoryId !in old(store.categories)
    ensures r.Created? <==> ValidBookCreate(req) && req.categoryId in old(store.categories)
    ensures !r.Created? ==> store.categories == old(store.categories) && store.books == old(store.books)
    ensures r.Created? ==>
      && r.value == Book(r.value.id, req.title, req.description, req.price, req.url, req.categoryId)
      && r.value.id !in old(store.books)
      && store.books == old(store.books)[r.value.id := r.value]
      && store.categories == old(store.categories)
      && Crud.GetBook(store.books, r.value.id) == Some(r.value)
    ensures BooksWithinBounds(old(store.books)) ==> BooksWithinBounds(store.books)
  {
    if !ValidBookCreate(req) {
      return Unprocessable;
    }
    var category := Crud.GetCategory(store.categories, req.categoryId);
    if category.None? {
      return BadRequest;
    }
    ValidCreateFitsColumns(req);
    var w := store.CreateBook(req.title, req.price, req.categoryId, req.description, req.url);
    if w.Done? {
      r := Created(w.value);
    } else {
      assert false;
      r := ServerError;
    }
  }

  /** The book after a partial update: every field the request supplies
      (is not None) replaces the stored one; every other field stays. */
  function Patched(b: Book, req: BookUpdate): Book {
    Book(
      b.id,
      req.title.GetOr(b.title),
      if req.description.Some? then req.description else b.description,
      req.price.GetOr(b.price),
      if req.url.Some? then req.url else b.url,
      req.categoryId.GetOr(b.categoryId))
  }

  /** The keyword arguments `update_data` collects: one per field the
      request supplies (is not None), in the order the fields are tested. */
  function UpdateArgs(req: BookUpdate): seq<Crud.Assignment> {
    (if req.title.Some? then [Crud.SetTitle(req.title.value)] else [])
    + (if req.description.Some? then [Crud.SetDescription(req.description)] else [])
    + (if req.price.Some? then [Crud.SetPrice(req.price.value)] else [])
    + (if req.url.Some? then [Crud.SetUrl(req.url)] else [])
    + (if req.categoryId.Some? then [Crud.SetCategoryId(req.categoryId.value)] else [])
  }

  /** The request supplies the field the argument sets. */
  predicate Supplied(a: Crud.Assignment, req: BookUpdate) {
    match a
    case SetTitle(_) => req.title.Some?
    case SetDescription(_) => req.description.Some?
    case SetPrice(_) => req.price.Some?
    case SetUrl(_) => req.url.Some?
    case SetCategoryId(_) => req.categoryId.Some?
  }

  /** The arguments name exactly the supplied fields, each under a key of
      its own, as the keys of a dictionary must be. */
  lemma UpdateArgsNameSuppliedFields(req: BookUpdate)
    ensures forall i :: 0 <= i < |UpdateArgs(req)| ==> Supplied(UpdateArgs(req)[i], req)
    ensures forall i, j :: 0 <= i < j < |UpdateArgs(req)| ==> Crud.Key(UpdateArgs(req)[i]) != Crud.Key(UpdateArgs(req)[j])
    ensures (exists i :: 0 <= i < |UpdateArgs(req)| && UpdateArgs(req)[i].SetTitle?) <==> req.title.Some?
    ensures (exists i :: 0 <= i < |UpdateArgs(req)| && UpdateArgs(req)[i].SetDescription?) <==> req.description.Some?
    ensures (exists i :: 0 <= i < |UpdateArgs(req)| && UpdateArgs(req)[i].SetPrice?) <==> req.price.Some?
    ensures (exists i :: 0 <= i < |UpdateArgs(req)| && UpdateArgs(req)[i].SetUrl?) <==> req.url.Some?
    ensures (exists i :: 0 <= i < |UpdateArgs(req)| && UpdateArgs(req)[i].SetCategoryId?) <==> req.categoryId.Some?
  {
    var args := UpdateArgs(req);
    // Where each supplied field's argument sits.
    var atDescription := if req.title.Some? then 1 else 0;
    var atPrice := atDescription + if req.description.Some? then 1 else 0;
    var atUrl := atPrice + if req.price.Some? then 1 else 0;
    var atCategoryId := atUrl + if req.url.Some? then 1 else 0;
    if req.title.Some? {
      assert args[0].SetTitle?;
    }
    if req.description.Some? {
      assert args[atDescription].SetDescription?;
    }
    if req.price.Some? {
      assert args[atPrice].SetPrice?;
    }
    if req.url.Some? {
      assert args[atUrl].SetUrl?;
    }
    if req.categoryId.Some? {
      assert args[atCategoryId].SetCategoryId?;
    }
  }

  /** Applied with `setattr`, the arguments give the patched book. */
  lemma UpdateArgsPatch(b: Book, req: BookUpdate)
    ensures Crud.AssignAll(b, UpdateArgs(req)) == Patched(b, req)
  {
    var t := if req.title.Some? then [Crud.SetTitle(req.title.value)] else [];
    var d := if req.description.Some? then [Crud.SetDescription(req.description)] else [];
    var p := if req.price.Some? then [Crud.SetPrice(req.price.value)] else [];
    var u := if req.url.Some? then [Crud.SetUrl(req.url)] else [];
    var c := if req.categoryId.Some? then [Crud.SetCategoryId(req.categoryId.value)] else [];
    Crud.AssignAllConcat(b, t + d + p + u, c);
    Crud.AssignAllConcat(b, t + d + p, u);
    Crud.AssignAllConcat(b, t + d, p);
    Crud.AssignAllConcat(b, t, d);
  }

  /** `update_data`, built up one conditional insertion at a time. */
  method UpdateData(b: Book, req: BookUpdate) returns (kwargs: seq<Crud.Assignment>)
    ensures kwargs == UpdateArgs(req)
    ensures Crud.AssignAll(b, kwargs) == Patched(b, req)
  {
    kwargs := [];
    if req.title.Some? {
      kwargs := kwargs + [Crud.SetTitle(req.title.value)];
    }
    if req.description.Some? {
      kwargs := kwargs + [Crud.SetDescription(req.description)];
    }
    if req.price.Some? {
      kwargs := kwargs + [Crud.SetPrice(req.price.value)];
    }
    if req.url.Some? {
      kwargs := kwargs + [Crud.SetUrl(req.url)];
    }
    if req.categoryId.Some? {
      kwargs := kwargs + [Crud.SetCategoryId(req.categoryId.value)];
    }
    UpdateArgsPatch(b, req);
  }

  /** The update bounds are the create bounds, field by field: a valid
      update of a book within the create bounds keeps it within them, and an
      update that supplies every required field (and a url, if the book has
      one) is valid exactly when the book it produces is within them. */
  lemma PatchedKeepsCreateBounds(b: Book, req: BookUpdate)
    ensures ValidBookCreate(Body(b)) && ValidBookUpdate(req) ==> ValidBookCreate(Body(Patched(b, req)))
    ensures req.title.Some? && req.price.Some? && req.categoryId.Some? && (req.url.Some? || b.url.None?) ==>
      (ValidBookUpdate(req) <==> ValidBookCreate(Body(Patched(b, req))))
  {
  }

  /** A validated update of a stored book whose new category (if any) exists
      is a row the storage accepts: the handler's checks leave no constraint
      for the commit to break. */
  lemma PatchedIsAccepted(categories: map<int, Category>, key: int, b: Book, req: BookUpdate)
    requires BookRowOk(key, b) && b.categoryId in categories
    requires ValidBookUpdate(req)
    requires req.categoryId.Some? ==> req.categoryId.value in categories
    ensures BookAccepted(categories, Patched(b, req))
    ensures BookRowOk(key, Patched(b, req))
  {
  }

  /** `update_book`: 404 for an unknown id before any other check; 400 when
      a supplied category does not exist; otherwise 200 with only the
      supplied fields replaced. A None field is never sent, so description
      and url cannot be cleared. */
  method UpdateBook(store: Crud.Catalog, bookId: int, req: BookUpdate) returns (r: Reply<Book>)
    requires store.Valid()
    modifies store
    ensures store.Valid()
    ensures r.Unprocessable? <==> !ValidBookUpdate(req)
    ensures r.NotFound? <==> ValidBookUpdate(req) && bookId !in old(store.books)
    ensures r.BadRequest? <==>
      && ValidBookUpdate(req) && bookId in old(store.books)
      && req.categoryId.Some? && req.categoryId.value !in old(store.categories)
    ensures r.Ok? <==>
      && ValidBookUpdate(req) && bookId in old(store.books)
      && (req.categoryId.Some? ==> req.categoryId.value in old(store.categories))
    ensures !r.Ok? ==> store.categories == old(store.categories) && store.books == old(store.books)
    ensures r.Ok? ==>
      && r.value == Patched(old(store.books)[bookId], req)
      && store.books == old(store.books)[bookId := r.value]
      && store.categories == old(store.categories)
    ensures r.Ok? && old(store.books)[bookId].description.Some? ==> r.value.description.Some?
    ensures r.Ok? && old(store.books)[bookId].url.Some? ==> r.value.url.Some?
    ensures BooksWithinBounds(old(store.books)) ==> BooksWithinBounds(store.books)
  {
    if !ValidBookUpdate(req) {
      return Unprocessable;
    }
    var current := Crud.GetBook(store.books, bookId);
    if current.None? {
      return NotFound;
    }
    if req.categoryId.Some? {
      var category := Crud.GetCategory(store.categories, req.categoryId.value);
      if category.None? {
        return BadRequest;
      }
    }

    var updateData := UpdateData(current.value, req);
    PatchedIsAccepted(store.categories, bookId, current.value, req);
    PatchedKeepsCreateBounds(current.value, req);
    var w := store.UpdateBook(bookId, updateData);
    if w.Done? {
      r := Ok(w.value);
    } else {
      assert false;
      r := ServerError;
    }
  }

  /** `delete_book`: 404 for an unknown id; otherwise 204, that book is gone
      and every other book and every category is unchanged. */
  method DeleteBook(store: Crud.Catalog, bookId: int) returns (r: Reply<()>)
    requires store.Valid()
    modifies store
    ensures store.Valid()
    ensures r.NotFound? <==> bookId !in old(store.books)
    ensures r.NoContent? <==> bookId in old(store.books)
    ensures store.books == old(store.books) - {bookId}
    ensures store.categories == old(store.categories)
    ensures Crud.GetBook(store.books, bookId) == None
    ensures BooksWithinBounds(old(store.books)) ==> BooksWithinBounds(store.books)
  {
    var current := Crud.GetBook(store.books, bookId);
    if current.None? {
      return NotFound;
    }
    var deleted := store.DeleteBook(bookId);
    if deleted {
      r := NoContent;
    } else {
      assert false;
      r := ServerError;
    }
  }

  /** A session over a fresh catalog: a category "Fiction", a book "Dune" in
      it, a second book refused for its negative price, then the category
      deleted, after which "Dune" no longer resolves. */
  method FictionScenario() returns (dune: Reply<Book>, dune2: Reply<Book>, after: Reply<Book>)
    ensures dune.Created? && dune2.Unprocessable? && after.NotFound?
  {
    var store := new Crud.Catalog();
    var fiction := CategoriesApi.CreateCategory(store, CategoryCreate("Fiction"));
    assert fiction.Created?;
    var fictionId := fiction.value.id;
    dune := CreateBook(store, BookCreate("Dune", None, 450.0, None, fictionId));
    assert dune.Created?;
    dune2 := CreateBook(store, BookCreate("Dune2", None, -5.0, None, fictionId));
    var deleted := CategoriesApi.DeleteCategory(store, fictionId);
    assert deleted.NoContent?;
    after := ReadBook(store.books, dune.value.id);
  }
}
