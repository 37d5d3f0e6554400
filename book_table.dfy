/** The stored `Book` table and the queries and updates the controller runs on it, as
    functions of the table's contents in the store's retrieval order. */
module BookTable {
  import opened Primitives
  import BookValidation

  /** A stored book. `InStock == false` is the soft-deleted state. */
  datatype Book = Book(
    id: Int32,
    title: string,
    author: string,
    genre: string,
    numberOfPages: Int32,
    inStock: bool)

  /** The wire shape of one book: every stored field except the stock flag. */
  datatype GetABookResponse = GetABookResponse(
    id: Int32,
    title: string,
    author: string,
    genre: string,
    numberOfPages: Int32)

  /** An element of the list response; it has the same fields as the single-book response. */
  type GetBooksResponseItem = GetABookResponse

  /** The list response: the books, the genre filter that was applied and how many books. */
  datatype GetBooksResponse = GetBooksResponse(
    books: seq<GetBooksResponseItem>,
    genreFilter: Option<string>,
    numberOfBooks: int)

  /** The `Select` projection of both queries. */
  function Project(b: Book): GetABookResponse
  {
    GetABookResponse(b.id, b.title, b.author, b.genre, b.numberOfPages)
  }

  /** What creation admits and the page-count update keeps: the three strings present, Title
      and Author within the column limit of 200, and at least one page. */
  predicate WellFormed(b: Book)
  {
    && BookValidation.Present(Some(b.title)) && |b.title| <= BookValidation.MaxTextLength
    && BookValidation.Present(Some(b.author)) && |b.author| <= BookValidation.MaxTextLength
    && BookValidation.Present(Some(b.genre))
    && b.numberOfPages >= 1
  }

  /** Id is the primary key. */
  predicate UniqueIds(books: seq<Book>)
  {
    forall i, j :: 0 <= i < j < |books| ==> books[i].id != books[j].id
  }

  predicate ValidTable(books: seq<Book>)
  {
    UniqueIds(books) && forall i :: 0 <= i < |books| ==> WellFormed(books[i])
  }

  /** Some record, in stock or not, has this id. */
  predicate HasId(books: seq<Book>, id: Int32)
  {
    exists i :: 0 <= i < |books| && books[i].id == id
  }

  /** The filter `b.InStock && b.Id == id` matches a record. */
  predicate IsInStock(books: seq<Book>, id: Int32)
  {
    exists i :: 0 <= i < |books| && books[i].id == id && books[i].inStock
  }

  /** The position of the record matched by `b.InStock && b.Id == id`, if any (with unique ids
      there is at most one, which is what `SingleOrDefault` relies on). */
  function FindInStock(books: seq<Book>, id: Int32): (r: Option<nat>)
    ensures r.Some? ==> r.value < |books| && books[r.value].id == id && books[r.value].inStock
    ensures r.None? <==> !IsInStock(books, id)
    decreases |books|
  {
    if books == [] then None
    else if books[0].id == id && books[0].inStock then Some(0)
    else
      match FindInStock(books[1..], id)
      case None =>
        assert forall i :: 1 <= i < |books| ==> books[i] == books[1..][i - 1];
        None
      case Some(k) => Some(k + 1)
  }

  /** With unique ids, the record found is the in-stock record with that id. */
  lemma FindInStockUnique(books: seq<Book>, i: nat)
    requires UniqueIds(books)
    requires i < |books| && books[i].inStock
    ensures FindInStock(books, books[i].id) == Some(i)
  {
  }

  /** The single-book query: the projection of the in-stock record with that id. */
  function Lookup(books: seq<Book>, id: Int32): (r: Option<GetABookResponse>)
    ensures r.Some? <==> IsInStock(books, id)
    ensures r.Some? ==> r.value.id == id
    ensures r.Some? ==> exists i :: 0 <= i < |books| && books[i].inStock && r.value == Project(books[i])
  {
    match FindInStock(books, id)
    case None => None
    case Some(i) => Some(Project(books[i]))
  }

  /** The page-count update: the in-stock record with that id gets the new count; no other
      record and no other field changes. */
  function SetNumberOfPages(books: seq<Book>, id: Int32, numberOfPages: Int32): (r: seq<Book>)
    ensures |r| == |books|
    ensures forall i :: 0 <= i < |books| ==>
      r[i] == books[i]
      || (books[i].id == id && books[i].inStock && r[i] == books[i].(numberOfPages := numberOfPages))
    ensures UniqueIds(books) ==> forall i :: 0 <= i < |books| && books[i].id == id && books[i].inStock ==>
      r[i] == books[i].(numberOfPages := numberOfPages)
    ensures !IsInStock(books, id) ==> r == books
  {
    match FindInStock(books, id)
    case None => books
    case Some(i) => books[i := books[i].(numberOfPages := numberOfPages)]
  }

  /** The soft delete: the in-stock record with that id leaves stock; nothing else changes,
      and with unique ids no in-stock record with that id remains. */
  function SoftDelete(books: seq<Book>, id: Int32): (r: seq<Book>)
    ensures |r| == |books|
    ensures forall i :: 0 <= i < |books| ==>
      r[i] == books[i] || (books[i].id == id && books[i].inStock && r[i] == books[i].(inStock := false))
    ensures UniqueIds(books) ==> !IsInStock(r, id)
    ensures !IsInStock(books, id) ==> r == books
  {
    match FindInStock(books, id)
    case None => books
    case Some(i) =>
      var r := books[i := books[i].(inStock := false)];
      assert UniqueIds(books) ==> forall j :: 0 <= j < |r| && r[j].id == id ==> j == i;
      r
  }

  /** The `Where(b => b.InStock).Select(...)` list query, in retrieval order. */
  function InStockItems(books: seq<Book>): (r: seq<GetBooksResponseItem>)
    ensures |r| <= |books|
    ensures forall item :: item in r <==> exists b :: b in books && b.inStock && item == Project(b)
    decreases |books|
  {
    if books == [] then []
    else
      var rest := InStockItems(books[1..]);
      assert forall b :: b in books[1..] ==> b in books;
      assert forall b :: b in books ==> b == books[0] || b in books[1..];
      (if books[0].inStock then [Project(books[0])] else []) + rest
  }

  /** The extra `Where(b => b.Genre == genre)` filter: exact, case-sensitive equality. */
  function WhereGenre(items: seq<GetBooksResponseItem>, genre: string): (r: seq<GetBooksResponseItem>)
    ensures |r| <= |items|
    ensures forall item :: item in r <==> item in items && item.genre == genre
    decreases |items|
  {
    if items == [] then []
    else
      assert forall x :: x in items <==> x == items[0] || x in items[1..];
      (if items[0].genre == genre then [items[0]] else []) + WhereGenre(items[1..], genre)
  }

  /** The records the list operation returns: in stock, and of the requested genre if any. */
  predicate Listed(b: Book, genre: Option<string>)
  {
    b.inStock && (genre.None? || b.genre == genre.value)
  }

  /** The list operation's result in one pass: the projections of the listed records, in order. */
  function ListedItems(books: seq<Book>, genre: Option<string>): (r: seq<GetBooksResponseItem>)
    ensures |r| <= |books|
    ensures forall item :: item in r <==> exists b :: b in books && Listed(b, genre) && item == Project(b)
    decreases |books|
  {
    if books == [] then []
    else
      assert forall b :: b in books <==> b == books[0] || b in books[1..];
      (if Listed(books[0], genre) then [Project(books[0])] else []) + ListedItems(books[1..], genre)
  }

  /** Without a genre, the in-stock query is the list result. */
  lemma {:induction false} InStockItemsListed(books: seq<Book>)
    ensures InStockItems(books) == ListedItems(books, None)
    decreases |books|
  {
    if books != [] {
      InStockItemsListed(books[1..]);
    }
  }

  /** Filtering the projections by genre gives the projections of the records of that genre:
      the two-step query and the one-pass definition agree, order included. */
  lemma {:induction false} GenreFilterListed(books: seq<Book>, genre: string)
    ensures WhereGenre(InStockItems(books), genre) == ListedItems(books, Some(genre))
    decreases |books|
  {
    if books != [] {
      GenreFilterListed(books[1..], genre);
      var head := if books[0].inStock then [Project(books[0])] else [];
      assert InStockItems(books) == head + InStockItems(books[1..]);
      WhereGenreAppend(head, InStockItems(books[1..]), genre);
    }
  }

  /** The genre filter distributes over concatenation. */
  lemma {:induction false} WhereGenreAppend(xs: seq<GetBooksResponseItem>, ys: seq<GetBooksResponseItem>, genre: string)
    ensures WhereGenre(xs + ys, genre) == WhereGenre(xs, genre) + WhereGenre(ys, genre)
    decreases |xs|
  {
    if xs != [] {
      assert (xs + ys)[1..] == xs[1..] + ys;
      WhereGenreAppend(xs[1..], ys, genre);
    } else {
      assert xs + ys == ys;
    }
  }

  /** A book appended with a fresh id is found by the single-book query, with the projection
      of its own fields. */
  lemma AddThenLookup(books: seq<Book>, b: Book)
    requires UniqueIds(books) && !HasId(books, b.id) && b.inStock
    ensures UniqueIds(books + [b])
    ensures Lookup(books + [b], b.id) == Some(Project(b))
  {
    var t := books + [b];
    assert t[|books|] == b;
    FindInStockUnique(t, |books|);
  }

  /** After a page-count update on an in-stock id, the single-book query returns the old
      projection with the new count. */
  lemma SetNumberOfPagesThenLookup(books: seq<Book>, id: Int32, numberOfPages: Int32)
    requires UniqueIds(books) && IsInStock(books, id)
    ensures Lookup(SetNumberOfPages(books, id, numberOfPages), id)
      == Some(Lookup(books, id).value.(numberOfPages := numberOfPages))
  {
    var i :| 0 <= i < |books| && books[i].id == id && books[i].inStock;
    var r := SetNumberOfPages(books, id, numberOfPages);
    FindInStockUnique(books, i);
    assert UniqueIds(r) by {
      assert forall j :: 0 <= j < |r| ==> r[j].id == books[j].id;
    }
    FindInStockUnique(r, i);
  }

  /** A soft-deleted book is no longer found, and deleting it again changes nothing. */
  lemma SoftDeleteIdempotent(books: seq<Book>, id: Int32)
    requires UniqueIds(books)
    ensures Lookup(SoftDelete(books, id), id) == None
    ensures SoftDelete(SoftDelete(books, id), id) == SoftDelete(books, id)
  {
  }

  /** A page-count update to a positive count keeps the table invariant. */
  lemma SetNumberOfPagesKeepsTableValid(books: seq<Book>, id: Int32, numberOfPages: Int32)
    requires ValidTable(books) && numberOfPages >= 1
    ensures ValidTable(SetNumberOfPages(books, id, numberOfPages))
  {
    var r := SetNumberOfPages(books, id, numberOfPages);
    assert forall j :: 0 <= j < |r| ==> r[j].id == books[j].id;
  }

  /** A soft delete keeps the table invariant. */
  lemma SoftDeleteKeepsTableValid(books: seq<Book>, id: Int32)
    requires ValidTable(books)
    ensures ValidTable(SoftDelete(books, id))
  {
    var r := SoftDelete(books, id);
    assert forall j :: 0 <= j < |r| ==> r[j].id == books[j].id;
  }

  /** Appending a well-formed book with a fresh id keeps the table invariant. */
  lemma AppendKeepsTableValid(books: seq<Book>, b: Book)
    requires ValidTable(books) && WellFormed(b) && !HasId(books, b.id)
    ensures ValidTable(books + [b])
  {
  }
}
