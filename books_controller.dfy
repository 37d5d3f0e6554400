/** The five request handlers of the books controller, as methods of a class that holds the
    data context's `Books` table. */
module BooksApi {
  import opened Primitives
  import opened BookValidation
  import opened BookTable

  /** The responses the handlers produce, with their payloads. */
  datatype ActionResult<T> =
    | Ok(value: T)
    | CreatedAtRoute(routeName: string, bookId: Int32, value: T)
    | NoContent
    | NotFound
    | BadRequestMessage(message: string)
    | BadRequestModelState(modelState: ModelState)

  /** The name of the single-book route that a created book's location refers to. */
  const GetABookRoute := "books#getabook"

  /** The literal body of the page-count update's rejection. */
  const BadPageCountMessage := "Get a life, loser!"

  class BooksController {
    /** The `Books` table of the data context, in the store's retrieval order. */
    var books: seq<Book>

    /** Ids are a primary key and every record is as creation admitted it. */
    ghost predicate Valid()
      reads this
    {
      ValidTable(books)
    }

    constructor (table: seq<Book>)
      requires ValidTable(table)
      ensures Valid() && books == table
    {
      books := table;
    }

    /** `GET books/{bookId}`: Ok with the projection of the in-stock book with that id, and
        NotFound exactly when there is none. Nothing is written. */
    method GetABook(bookId: Int32) returns (r: ActionResult<GetABookResponse>)
      ensures r.Ok? || r.NotFound?
      ensures r.Ok? <==> IsInStock(books, bookId)
      ensures r.Ok? ==> r.value.id == bookId && Some(r.value) == Lookup(books, bookId)
      ensures r.Ok? ==>
        exists i :: (0 <= i < |books| && books[i].id == bookId && books[i].inStock
          && r.value.title == books[i].title && r.value.author == books[i].author
          && r.value.genre == books[i].genre && r.value.numberOfPages == books[i].numberOfPages)
    {
      var book := Lookup(books, bookId);
      if book.None? {
        r := NotFound;
      } else {
        r := Ok(book.value);
      }
    }

    /** `PUT books/{id}/numberofpages`: a count that is not positive is refused before the
        table is read; otherwise the in-stock book with that id gets the new count (NoContent),
        or nothing changes (NotFound). */
    method ChangeNumberOfPages(id: Int32, numberOfPages: Int32) returns (r: ActionResult<()>)
      requires Valid()
      modifies this
      ensures Valid()
      ensures numberOfPages <= 0 ==> r == BadRequestMessage(BadPageCountMessage) && books == old(books)
      ensures numberOfPages > 0 && IsInStock(old(books), id) ==>
        r == NoContent && books == SetNumberOfPages(old(books), id, numberOfPages)
      ensures numberOfPages > 0 && !IsInStock(old(books), id) ==> r == NotFound && books == old(books)
    {
      if numberOfPages <= 0 {
        return BadRequestMessage(BadPageCountMessage);
      }
      var found := FindInStock(books, id);
      if found.Some? {
        var i := found.value;
        books := books[i := books[i].(numberOfPages := numberOfPages)];
        r := NoContent;
      } else {
        r := NotFound;
      }
      SetNumberOfPagesKeepsTableValid(old(books), id, numberOfPages);
    }

    /** `DELETE books/{bookId}`: always NoContent; the in-stock book with that id, if any,
        leaves stock. */
    method RemoveABook(bookId: Int32) returns (r: ActionResult<()>)
      requires Valid()
      modifies this
      ensures Valid()
      ensures r == NoContent
      ensures books == SoftDelete(old(books), bookId)
      ensures !IsInStock(books, bookId)
    {
      var found := FindInStock(books, bookId);
      if found.Some? {
        var i := found.value;
        books := books[i := books[i].(inStock := false)];
      }
      r := NoContent;
      SoftDeleteKeepsTableValid(old(books), bookId);
    }

    /** `POST books`: an invalid body is refused with its model state and nothing is stored;
        a valid one is stored in stock under the id the database generates, and the response
        is its projection, which the single-book query now returns for that id. */
    method AddABook(newBook: PostBookCreate, generatedId: Int32) returns (r: ActionResult<GetABookResponse>)
      requires Valid()
      requires !HasId(books, generatedId)
      modifies this
      ensures Valid()
      ensures !BindModel(newBook).IsValid() ==>
        r == BadRequestModelState(BindModel(newBook)) && books == old(books)
      ensures BindModel(newBook).IsValid() ==>
        && newBook.title.Some? && newBook.author.Some? && newBook.genre.Some?
        && books == old(books) + [Book(generatedId, newBook.title.value, newBook.author.value,
                                       newBook.genre.value, newBook.numberOfPages, true)]
        && r.CreatedAtRoute? && r.routeName == GetABookRoute && r.bookId == generatedId
        && r.value == GetABookResponse(generatedId, newBook.title.value, newBook.author.value,
                                       newBook.genre.value, newBook.numberOfPages)
        && Lookup(books, generatedId) == Some(r.value)
    {
      var modelState := BindModel(newBook);
      if !modelState.IsValid() {
        return BadRequestModelState(modelState);
      }
      var book := Book(generatedId, newBook.title.value, newBook.author.value,
                       newBook.genre.value, newBook.numberOfPages, true);
      AppendKeepsTableValid(books, book);
      AddThenLookup(books, book);
      books := books + [book];
      var response := GetABookResponse(book.id, book.title, book.author, book.genre, book.numberOfPages);
      r := CreatedAtRoute(GetABookRoute, response.id, response);
    }

    /** `GET books?genre=`: always Ok; the in-stock books, restricted to exactly the given
        genre when one is given, in retrieval order, with their count and the filter echoed. */
    method GetAllBooks(genre: Option<string>) returns (r: ActionResult<GetBooksResponse>)
      ensures r.Ok?
      ensures r.value.books == ListedItems(books, genre)
      ensures r.value.genreFilter == genre
      ensures r.value.numberOfBooks == |r.value.books|
    {
      var items := InStockItems(books);
      if genre.Some? {
        items := WhereGenre(items, genre.value);
        GenreFilterListed(books, genre.value);
      } else {
        InStockItemsListed(books);
      }
      r := Ok(GetBooksResponse(items, genre, |items|));
    }
  }

  /** After a book is removed, fetching it and updating it answer NotFound, and removing it
      again answers NoContent and changes nothing. */
  method RemoveThenRequests(controller: BooksController, id: Int32, numberOfPages: Int32)
    returns (fetched: ActionResult<GetABookResponse>, updated: ActionResult<()>, removedAgain: ActionResult<()>)
    requires controller.Valid() && numberOfPages > 0
    modifies controller
    ensures controller.Valid()
    ensures controller.books == SoftDelete(old(controller.books), id)
    ensures fetched == NotFound && updated == NotFound && removedAgain == NoContent
  {
    var removed := controller.RemoveABook(id);
    fetched := controller.GetABook(id);
    updated := controller.ChangeNumberOfPages(id, numberOfPages);
    removedAgain := controller.RemoveABook(id);
  }
}
