/** The `/categories` request handlers: each checks, then calls the
    repository, and maps the outcome to a reply. */
module CategoriesApi {
  import opened Wrappers
  import opened Models
  import opened Schemas
  import opened Http
  import Crud

  /** `read_categories`. */
  function ReadCategories(categories: map<int, Category>, skip: int, limit: int): (r: Reply<seq<Category>>)
    ensures r.Ok? || r.Unprocessable?
    ensures r.Ok? <==> PagingValid(skip, limit)
    ensures r.Ok? ==> |r.value| <= limit && forall c :: c in r.value ==> c in categories.Values
    ensures r.Ok? ==> r.value == Crud.GetCategories(categories, skip, limit)
    ensures r.Ok? && skip == 0 && limit >= |categories| ==> forall c :: c in categories.Values ==> c in r.value
  {
    if !PagingValid(skip, limit) then Unprocessable
    else Ok(Crud.GetCategories(categories, skip, limit))
  }

  /** `read_category`: 404 when the id does not resolve. */
  function ReadCategory(categories: map<int, Category>, categoryId: int): (r: Reply<Category>)
    ensures r.Ok? || r.NotFound?
    ensures r.NotFound? <==> categoryId !in categories
    ensures r.Ok? ==> r.value == categories[categoryId]
  {
    match Crud.GetCategory(categories, categoryId)
    case None => NotFound
    case Some(c) => Ok(c)
  }

  /** `create_category`: 400 and nothing stored when a category already has
      the title; otherwise 201 with a new category under a fresh id. */
  method CreateCategory(store: Crud.Catalog, req: CategoryCreate) returns (r: Reply<Category>)
    requires store.Valid()
    modifies store
    ensures store.Valid()
    ensures r.Unprocessable? <==> !ValidCategoryCreate(req)
    ensures r.BadRequest? <==> ValidCategoryCreate(req) && TitleTaken(old(store.categories), req.title)
    ensures r.Created? <==> ValidCategoryCreate(req) && !TitleTaken(old(store.categories), req.title)
    ensures !r.Created? ==> store.categories == old(store.categories) && store.books == old(store.books)
    ensures r.Created? ==>
      && r.value.title == req.title
      && r.value.id !in old(store.categories)
      && store.categories == old(store.categories)[r.value.id := r.value]
      && store.books == old(store.books)
    ensures CategoriesWithinBounds(old(store.categories)) ==> CategoriesWithinBounds(store.categories)
  {
    if !ValidCategoryCreate(req) {
      return Unprocessable;
    }
    var existing := Crud.GetCategoryByTitle(store.categories, req.title);
    if existing.Some? {
      return BadRequest;
    }
    var w := store.CreateCategory(req.title);
    if w.Done? {
      r := Created(w.value);
    } else {
      assert false;
      r := ServerError;
    }
  }

  /** The title `update_category` stores: `category_update.title or
      db_category.title`, so an absent (or empty) title keeps the old one. */
  function TitleAfterUpdate(current: string, req: CategoryUpdate): string {
    if req.title.Some? && req.title.value != "" then req.title.value else current
  }

  /** `update_category`: 404 for an unknown id, then 400 when a different
      category holds the new title (the category's own record does not
      collide), otherwise 200 with the title replaced. */
  method UpdateCategory(store: Crud.Catalog, categoryId: int, req: CategoryUpdate) returns (r: Reply<Category>)
    requires store.Valid()
    modifies store
    ensures store.Valid()
    ensures r.Unprocessable? <==> !ValidCategoryUpdate(req)
    ensures r.NotFound? <==> ValidCategoryUpdate(req) && categoryId !in old(store.categories)
    ensures r.BadRequest? <==>
      && ValidCategoryUpdate(req) && categoryId in old(store.categories)
      && req.title.Some? && TitleHeldByOther(old(store.categories), req.title.value, categoryId)
    ensures r.Ok? <==>
      && ValidCategoryUpdate(req) && categoryId in old(store.categories)
      && !(req.title.Some? && TitleHeldByOther(old(store.categories), req.title.value, categoryId))
    ensures !r.Ok? ==> store.categories == old(store.categories) && store.books == old(store.books)
    ensures r.Ok? ==>
      && r.value == Category(categoryId, TitleAfterUpdate(old(store.categories)[categoryId].title, req))
      && store.categories == old(store.categories)[categoryId := r.value]
      && store.books == old(store.books)
    ensures r.Ok? && req.title.None? ==> store.categories == old(store.categories)
    ensures CategoriesWithinBounds(old(store.categories)) ==> CategoriesWithinBounds(store.categories)
  {
    if !ValidCategoryUpdate(req) {
      return Unprocessable;
    }
    var current := Crud.GetCategory(store.categories, categoryId);
    if current.None? {
      return NotFound;
    }
    if req.title.Some? {
      Crud.TitleLookupFindsHolder(store.categories, store.books, req.title.value, categoryId);
      var existing := Crud.GetCategoryByTitle(store.categories, req.title.value);
      if existing.Some? && existing.value.id != categoryId {
        return BadRequest;
      }
    }
    var title := TitleAfterUpdate(current.value.title, req);
    Crud.TitleLookupFindsHolder(store.categories, store.books, title, categoryId);
    assert CategoryRowOk(categoryId, current.value);
    var w := store.UpdateCategory(categoryId, title);
    if w.Done? {
      r := Ok(w.value);
    } else {
      assert false;
      r := ServerError;
    }
  }

  /** `delete_category`: 404 for an unknown id; otherwise 204, the category
      is gone and so is every book that referred to it. */
  method DeleteCategory(store: Crud.Catalog, categoryId: int) returns (r: Reply<()>)
    requires store.Valid()
    modifies store
    ensures store.Valid()
    ensures r.NotFound? <==> categoryId !in old(store.categories)
    ensures r.NoContent? <==> categoryId in old(store.categories)
    ensures r.NotFound? ==> store.categories == old(store.categories) && store.books == old(store.books)
    ensures r.NoContent? ==>
      && store.categories == old(store.categories) - {categoryId}
      && store.books == Cascade(old(store.books), categoryId)
      && forall k :: k in old(store.books) ==>
           (Crud.GetBook(store.books, k) == None <==> old(store.books)[k].categoryId == categoryId)
    ensures CategoriesWithinBounds(old(store.categories)) ==> CategoriesWithinBounds(store.categories)
    ensures BooksWithinBounds(old(store.books)) ==> BooksWithinBounds(store.books)
  {
    var current := Crud.GetCategory(store.categories, categoryId);
    if current.None? {
      return NotFound;
    }
    var deleted := store.DeleteCategory(categoryId);
    if deleted {
      r := NoContent;
    } else {
      assert false;
      r := ServerError;
    }
  }
}
