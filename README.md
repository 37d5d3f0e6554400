# Book catalogue API: validation and soft-delete table model

This project models the decision logic of a small book-catalogue web API (`LibraryApi`):

- **Creation validation** (`LibraryApi/Models/PostBookCreate.cs`): the data-annotation
  attributes on the creation body (`[Required]`, `[MaxLength(200)]`, `[Range(1, int.MaxValue)]`)
  and the body's own `Validate` with its two cross-field rules: rule A refuses the title "it" by
  the author "king", and rule B refuses non-fiction of more than 500 pages, both compared
  case-insensitively. Module `BookValidation` in `post_book_create.dfy`, using `Text`
  (`text.dfy`) for lower-casing and white space.
- **The books controller** (`LibraryApi/Controllers/BooksController.cs`): get one book, list
  books with an optional genre filter, create a book, change a book's page count, and soft-delete
  a book by clearing its `InStock` flag. The data context's `Books` table is a `seq<Book>` field of
  class `BooksApi.BooksController` (`books_controller.dfy`). Its methods update the table in place,
  as the handlers do through the tracked entities. Each method's contract states its response and
  the whole new table. The table operations are also written as functions of the table in module
  `BookTable` (`book_table.dfy`), and the lemmas there state the round trips, idempotence, frames
  and invariant preservation.
- `primitives.dfy` holds `Option` (C# `null`) and `Int32` (C# `int`).

The table invariant (`BookTable.ValidTable`) says that Id is a primary key and that every record
is as creation admits it: Title, Author and Genre present, Title and Author at most 200
characters (also the column limit in `LibraryApi/Domain/LibraryDataContext.cs:13-14`), and at
least one page. Every handler that writes keeps this invariant.

## Model

| member | source | states |
|---|---|---|
| Text.Lower | LibraryApi/Models/PostBookCreate.cs:22 | `ToLower` keeps the length, lowers each character, and leaves no upper-case ASCII letter |
| Text.LowerIdempotent | LibraryApi/Models/PostBookCreate.cs:22 | lower-casing an already lowered string changes nothing |
| Text.LowerEqualIff | LibraryApi/Models/PostBookCreate.cs:22-26 | two strings lower to the same string exactly when they are equal up to the case of their letters |
| Text.LowerMatchesWord | LibraryApi/Models/PostBookCreate.cs:22-26 | comparing `s.ToLower()` with a lower-case word is comparing `s` with that word ignoring case |
| BookValidation.AttributeErrors | LibraryApi/Models/PostBookCreate.cs:11-19 | the attribute errors are exactly the violated attributes (Required on Title, Author and Genre; MaxLength 200 on Title and Author; Range 1 to int.MaxValue on NumberOfPages), and there are none exactly when all four properties are valid |
| BookValidation.Validate | LibraryApi/Models/PostBookCreate.cs:21-31 | rule A's result ("I hate that book", tagged Title and Author) is yielded exactly when Title lowers to "it" and Author to "king"; rule B's result ("give me a break", tagged Genre and NumberOfPages) is yielded exactly when Genre lowers to "non-fiction" and there are more than 500 pages; nothing else is yielded, so there are at most two results, and rule A's comes first. As a function of the body it assigns no property |
| BookValidation.BindModel | LibraryApi/Controllers/BooksController.cs:96-99 | the model state records exactly the violated attributes, and the results of `Validate` when every attribute holds (none otherwise), so each failed cross-field rule is reported tagged with its fields; it is valid exactly when every attribute holds and neither cross-field rule fires |
| BookValidation.HatedBookIgnoringCase | LibraryApi/Models/PostBookCreate.cs:22-25 | rule A fires exactly when Title equals "it" and Author equals "king" ignoring case |
| BookValidation.LongNonFictionIgnoringCase | LibraryApi/Models/PostBookCreate.cs:26-30 | rule B fires exactly when Genre equals "non-fiction" ignoring case and there are at least 501 pages |
| BookValidation.ValidateIgnoresCase | LibraryApi/Models/PostBookCreate.cs:22-26 | changing the letter case of Title, Author or Genre does not change the results of `Validate` |
| BookValidation.NonFictionPageBoundary | LibraryApi/Models/PostBookCreate.cs:26 | a non-fiction book with 500 pages gets no rule-B result, and one with 501 pages gets it |
| BookValidation.PageCountBoundary | LibraryApi/Models/PostBookCreate.cs:17-19 | a page count of 0 or less makes the body invalid; the Range error is reported exactly when the count is below 1 |
| BookValidation.ItByKingRefused | LibraryApi/Models/PostBookCreate.cs:22-25 | "It" by "King" (Horror, 400 pages) passes the attributes and is refused with rule A's result only |
| BookValidation.NonFictionCapitalised | LibraryApi/Models/PostBookCreate.cs:26 | "Non-Fiction" equals rule B's genre ignoring case |
| BookValidation.NonFiction501Refused | LibraryApi/Models/PostBookCreate.cs:26-30 | a 501-page "Non-Fiction" book passes the attributes and is refused with rule B's result only |
| BookValidation.NonFiction500Accepted | LibraryApi/Models/PostBookCreate.cs:26-30 | the same book with 500 pages is valid |
| BookTable.FindInStock | LibraryApi/Controllers/BooksController.cs:58-60 | the filter `Id == id && InStock` finds a matching record's position, and finds none exactly when no record matches |
| BookTable.FindInStockUnique | LibraryApi/Controllers/BooksController.cs:75-77 | with unique ids, the record found for an in-stock book's id is that book |
| BookTable.Lookup | LibraryApi/Controllers/BooksController.cs:32-41 | the single-book query returns a projection exactly when an in-stock record has the id, and that projection has the id and is the projection of an in-stock record |
| BookTable.SetNumberOfPages | LibraryApi/Controllers/BooksController.cs:58-64 | the page-count update changes no record except the in-stock record with the id, and in that record only NumberOfPages; with unique ids that record gets the new count; with no match the table is unchanged |
| BookTable.SoftDelete | LibraryApi/Controllers/BooksController.cs:75-82 | the soft delete changes no record except the in-stock record with the id, and in that record only InStock, which becomes false; with unique ids no in-stock record with the id remains |
| BookTable.InStockItems | LibraryApi/Controllers/BooksController.cs:127-136 | the list query returns exactly the projections of the in-stock records |
| BookTable.WhereGenre | LibraryApi/Controllers/BooksController.cs:138-141 | the genre filter keeps exactly the items whose Genre equals the argument, case-sensitively |
| BookTable.ListedItems | LibraryApi/Controllers/BooksController.cs:127-143 | the list result holds exactly the projections of the in-stock records of the requested genre, or of every genre when none is requested |
| BookTable.InStockItemsListed | LibraryApi/Controllers/BooksController.cs:127-143 | without a genre, the query's result is the list result, in retrieval order |
| BookTable.GenreFilterListed | LibraryApi/Controllers/BooksController.cs:127-143 | projecting the in-stock records and then filtering by genre gives the same sequence, in the same order, as keeping the in-stock records of that genre and projecting them |
| BookTable.AddThenLookup | LibraryApi/Controllers/BooksController.cs:100-121 | a book appended in stock with a fresh id keeps the ids unique, and the single-book query returns its own projection for that id |
| BookTable.SetNumberOfPagesThenLookup | LibraryApi/Controllers/BooksController.cs:58-65 | after a page-count update on an in-stock id, the single-book query returns the old projection with the new count |
| BookTable.SoftDeleteIdempotent | LibraryApi/Controllers/BooksController.cs:75-84 | after a soft delete the single-book query finds nothing for that id, and a second soft delete changes nothing |
| BookTable.SetNumberOfPagesKeepsTableValid | LibraryApi/Controllers/BooksController.cs:54-64 | a page-count update to a positive count keeps ids unique and every record well formed |
| BookTable.SoftDeleteKeepsTableValid | LibraryApi/Controllers/BooksController.cs:75-82 | a soft delete keeps the table invariant |
| BookTable.AppendKeepsTableValid | LibraryApi/Controllers/BooksController.cs:100-109 | appending a well-formed book with a fresh id keeps the table invariant |
| BooksApi.BooksController.constructor | LibraryApi/Controllers/BooksController.cs:17-20 | the controller works on the table it is given |
| BooksApi.BooksController.GetABook | LibraryApi/Controllers/BooksController.cs:30-50 | Ok exactly when an in-stock record has the id, otherwise NotFound; the payload copies Id, Title, Author, Genre and NumberOfPages of that record and has no stock flag; nothing is written |
| BooksApi.BooksController.ChangeNumberOfPages | LibraryApi/Controllers/BooksController.cs:52-70 | a count of 0 or less gives BadRequest with the fixed message and leaves the table alone; otherwise an in-stock id gives NoContent and the table after the page-count update, and any other id gives NotFound and the same table; the table invariant holds afterwards |
| BooksApi.BooksController.RemoveABook | LibraryApi/Controllers/BooksController.cs:73-85 | always NoContent; the new table is the soft delete of the old one, no in-stock record has the id afterwards, and the table invariant holds |
| BooksApi.BooksController.AddABook | LibraryApi/Controllers/BooksController.cs:94-122 | an invalid body gives BadRequest with its model state and leaves the table alone; a valid body appends one in-stock record with the generated id and the body's fields, and returns CreatedAtRoute to the single-book route with that id and the projection that the single-book query now returns for it |
| BooksApi.BooksController.GetAllBooks | LibraryApi/Controllers/BooksController.cs:125-151 | always Ok; the books are the in-stock records, restricted to exactly the given genre when one is given, in retrieval order; the count equals the list's length and the genre filter echoes the argument |
| BooksApi.RemoveThenRequests | LibraryApi/Controllers/BooksController.cs:73-85 | after a removal, fetching and updating the same id give NotFound and removing it again gives NoContent without changing the table |

## Left out

- Persistence: `SaveChangesAsync`, `SingleOrDefaultAsync` and `ToListAsync` become synchronous updates and reads of the `books` sequence. The exception `SingleOrDefault` throws on several matches is not modelled: unique ids are a table invariant, so there is at most one match.
- The data context (`LibraryApi/Domain/LibraryDataContext.cs`) is not modelled; its 200-character column limit is part of the table invariant.
- Id generation: the database's choice is the `generatedId` parameter of `AddABook`, required to be an id not already in the table. No particular sequence is modelled.
- HTTP routing, status-code metadata, the `CreatedAtRoute` location header and the serialisation of the model state into a field-to-messages map are not modelled. A response is an `ActionResult` value that carries its payload, and the model state carries structured attribute errors instead of the framework's default messages.
- BookValidation.BindModel: the framework decides when `Validate` runs. The model assumes it runs only after every property passed its attributes (the strings it dereferences are then present). Whether the body is valid does not depend on this assumption; only the errors listed for an invalid body do.
- A missing or unreadable JSON body (the bound argument being null) is not modelled; an absent page count binds to 0.
- `ToLower` is culture-sensitive in .NET. The model lowers ASCII letters only, so non-ASCII letters whose lower-case form is ASCII (such as the Kelvin sign) and culture-specific mappings are not captured.
- `string.Length` counts UTF-16 code units; the model counts characters, so the 200 limit differs for text outside the Basic Multilingual Plane.
- The genre filter is modelled as exact, case-sensitive string equality, as the C# expression reads. The database may evaluate it under a case-insensitive collation, and that is not modelled.
- Retrieval order is modelled as insertion order: `AddABook` appends the new record at the end of the table, so `GetAllBooks` lists it last. The source has no `OrderBy`, and the database promises no particular order.
- Concurrency between requests is not modelled; the code has no locking or coordination.
