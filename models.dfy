/** The two tables of the catalog, `categories` and `books`, with the
    constraints their column declarations impose. */
module Models {
  import opened Wrappers

  /** `String(255)` of `categories.title` and of `books.title`. */
  const MaxTitleLength := 255
  /** `String(500)` of `books.url`. */
  const MaxUrlLength := 500

  /** A row of `categories`. The title is NOT NULL, so it is a plain string. */
  datatype Category = Category(id: int, title: string)

  /** A row of `books`. `description` and `url` are nullable; `title`,
      `price` and `category_id` are NOT NULL. The float price is a real. */
  datatype Book = Book(
    id: int,
    title: string,
    description: Option<string>,
    price: real,
    url: Option<string>,
    categoryId: int)

  predicate TitleFits(title: string) {
    |title| <= MaxTitleLength
  }

  predicate UrlFits(url: Option<string>) {
    url.Some? ==> |url.value| <= MaxUrlLength
  }

  /** The row stored under primary key `key` carries that key and fits its columns. */
  predicate CategoryRowOk(key: int, c: Category) {
    c.id == key && 1 <= key && TitleFits(c.title)
  }

  predicate BookRowOk(key: int, b: Book) {
    b.id == key && 1 <= key && TitleFits(b.title) && UrlFits(b.url)
  }

  /** `unique=True` on `categories.title`. */
  predicate TitlesUnique(categories: map<int, Category>) {
    forall i, j :: i in categories && j in categories && categories[i].title == categories[j].title ==> i == j
  }

  /** Some category already has `title`. */
  predicate TitleTaken(categories: map<int, Category>, title: string) {
    exists k :: k in categories && categories[k].title == title
  }

  /** Some category other than `except` already has `title`. */
  predicate TitleHeldByOther(categories: map<int, Category>, title: string, except: int) {
    exists k :: k in categories && k != except && categories[k].title == title
  }

  /** The foreign key `books.category_id -> categories.id` (NOT NULL). */
  predicate ReferencesResolve(categories: map<int, Category>, books: map<int, Book>) {
    forall k :: k in books ==> books[k].categoryId in categories
  }

  /** The storage accepts `b` as a row of `books`: its category exists and
      its strings fit their columns. */
  predicate BookAccepted(categories: map<int, Category>, b: Book) {
    b.categoryId in categories && TitleFits(b.title) && UrlFits(b.url)
  }

  /** Every constraint the two table declarations impose. */
  predicate Consistent(categories: map<int, Category>, books: map<int, Book>) {
    && (forall k :: k in categories ==> CategoryRowOk(k, categories[k]))
    && (forall k :: k in books ==> BookRowOk(k, books[k]))
    && TitlesUnique(categories)
    && ReferencesResolve(categories, books)
  }

  /** The books left after deleting category `categoryId`: `ondelete="CASCADE"`
      on the foreign key and `cascade="all, delete-orphan"` on the relationship
      both remove every book of that category. */
  function Cascade(books: map<int, Book>, categoryId: int): map<int, Book> {
    map k | k in books && books[k].categoryId != categoryId :: books[k]
  }

  /** Deleting a category together with its books leaves consistent tables:
      no orphan book, and exactly the books of other categories survive,
      unchanged. */
  lemma CascadeLeavesNoOrphans(categories: map<int, Category>, books: map<int, Book>, categoryId: int)
    requires Consistent(categories, books)
    ensures Consistent(categories - {categoryId}, Cascade(books, categoryId))
    ensures forall k :: k in Cascade(books, categoryId) <==> k in books && books[k].categoryId != categoryId
    ensures forall k :: k in Cascade(books, categoryId) ==> Cascade(books, categoryId)[k] == books[k]
  {
  }

  /** When no book references the category, the cascade removes nothing. */
  lemma CascadeOfUnreferenced(categories: map<int, Category>, books: map<int, Book>, categoryId: int)
    requires ReferencesResolve(categories, books) && categoryId !in categories
    ensures Cascade(books, categoryId) == books
  {
    var kept := Cascade(books, categoryId);
    forall k | k in books ensures k in kept && kept[k] == books[k] {
      assert books[k].categoryId in categories;
    }
    assert kept.Keys == books.Keys;
  }

  /** Storing a category whose title no other category holds keeps titles unique. */
  lemma StoreKeepsTitlesUnique(categories: map<int, Category>, key: int, c: Category)
    requires TitlesUnique(categories)
    requires !TitleHeldByOther(categories, c.title, key)
    ensures TitlesUnique(categories[key := c])
  {
  }
}
