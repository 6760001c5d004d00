/** The request bodies and their field constraints (pydantic `Field` bounds).
    A body that fails them never reaches a handler: the framework answers 422. */
module Schemas {
  import opened Wrappers
  import opened Models

  datatype CategoryCreate = CategoryCreate(title: string)

  datatype CategoryUpdate = CategoryUpdate(title: Option<string>)

  datatype BookCreate = BookCreate(
    title: string,
    description: Option<string>,
    price: real,
    url: Option<string>,
    categoryId: int)

  datatype BookUpdate = BookUpdate(
    title: Option<string>,
    description: Option<string>,
    price: Option<real>,
    url: Option<string>,
    categoryId: Option<int>)

  /** `min_length=1, max_length=255`. */
  predicate TitleValid(title: string) {
    1 <= |title| <= MaxTitleLength
  }

  /** `gt=0`. */
  predicate PriceValid(price: real) {
    price > 0.0
  }

  /** `max_length=500`, for a url that is given. */
  predicate UrlValid(url: string) {
    |url| <= MaxUrlLength
  }

  /** `ge=1`. */
  predicate CategoryIdValid(categoryId: int) {
    categoryId >= 1
  }

  predicate ValidCategoryCreate(req: CategoryCreate) {
    TitleValid(req.title)
  }

  /** An absent title is accepted; a present one obeys the create bounds. */
  predicate ValidCategoryUpdate(req: CategoryUpdate) {
    req.title.Some? ==> TitleValid(req.title.value)
  }

  /** `description` is unconstrained. */
  predicate ValidBookCreate(req: BookCreate) {
    && TitleValid(req.title)
    && PriceValid(req.price)
    && (req.url.Some? ==> UrlValid(req.url.value))
    && CategoryIdValid(req.categoryId)
  }

  /** Every field is optional; each present one obeys its create bound. */
  predicate ValidBookUpdate(req: BookUpdate) {
    && (req.title.Some? ==> TitleValid(req.title.value))
    && (req.price.Some? ==> PriceValid(req.price.value))
    && (req.url.Some? ==> UrlValid(req.url.value))
    && (req.categoryId.Some? ==> CategoryIdValid(req.categoryId.value))
  }

  /** The create body a stored book would have been made from. */
  function Body(b: Book): BookCreate {
    BookCreate(b.title, b.description, b.price, b.url, b.categoryId)
  }

  /** Every stored book is within the bounds of a create body: a title of 1
      to 255 characters, a price above 0, a url of at most 500 characters
      and a positive category id. Neither the repository nor the storage
      enforces this; only the request bodies do. */
  predicate BooksWithinBounds(books: map<int, Book>) {
    forall k :: k in books ==> ValidBookCreate(Body(books[k]))
  }

  /** Every stored category title is within the bounds of a create body,
      in particular not empty. */
  predicate CategoriesWithinBounds(categories: map<int, Category>) {
    forall k :: k in categories ==> TitleValid(categories[k].title)
  }

  /** A validated create request fits the `books` row it becomes. */
  lemma ValidCreateFitsColumns(req: BookCreate)
    requires ValidBookCreate(req)
    ensures TitleFits(req.title) && UrlFits(req.url) && req.categoryId >= 1
  {
  }
}
