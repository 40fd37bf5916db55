# Book catalogue: a Dafny model

This project models the core of a small book catalogue application in Dafny: a
web API that keeps a table of books, and a single-page client that reads and
writes it through a caching service.

- **Catalogue store** (`catalog.dfy`, `seed.dfy`, `book.dfy`, `decimal.dfy`). The
  Books table is a `map<int, Book>`. The table's identity column is an id
  allocator (`nextId`). Both are fields of the class `Catalog`. Its methods are
  the five endpoints: list, get, create, update and delete. Create refuses a book
  whose title and author equal an existing row's once both are lower-cased. That
  is the catalogue's one integrity rule (`Unique`). Create and delete preserve
  it. Update does not re-check it, and `UpdateCanBreakUnique` exhibits a
  duplicate made by an update. The initial table is the two seeded rows. Because
  a database query without an ordering has no promised order, the model fixes
  the listing order to ascending id, the primary key order. This is also the
  order of insertion, since ids only grow.
- **Client service** (`book_service.dfy`). The class `BookService` holds the
  two cache slots: an optional whole-list entry and a per-id map. Each cached
  observable is an opaque token, `Feed`, naming the request whose result it
  replays. Every request handed to the HTTP client is appended to `sent`, and
  every notification to `shown`. The server's reply is a parameter. Reads fill
  an empty slot only. Every successful write wipes both slots. Non-positive ids
  are refused locally. `ParseErrorMessage` maps a failed response to its message.
- **Views** (`add_book.dfy`, `edit_book.dfy`, `book_list.dfy`, `ui.dfy`). Each
  view is a class over its flags. Its `subscribe` callbacks are separate methods
  that run when the service call ends. Snackbars, navigations and dialogs are
  returned as `Effect` values, and a dialog's answer is a parameter.
  `AddBookView.Submit` and `EditBookView.UpdateAfterFailedLoad` run a view
  together with the service. `ListCachedUntilWrite` and `FailedWriteKeepsCache`
  run the service's cache through reads and writes.

A book's text fields are meant to be non-empty. The server code checks no
field, only the duplicate rule, so the model's store accepts empty strings.
Only the client forms require the three text fields.

## Model

| member | source | states |
|---|---|---|
| `BookModel.LowerChar` | backend/BookManagementApp/Program.cs:63-64 | lower-casing maps A-Z to a-z (32 code points up) and leaves every other character alone |
| `BookModel.Lower` | backend/BookManagementApp/Program.cs:63-64 | lower-casing keeps the length, turns each upper-case ASCII letter into its lower-case letter (32 code points up) in place, leaves no upper-case ASCII letter and keeps every other character in place |
| `BookModel.LowerIdempotent` | backend/BookManagementApp/Program.cs:62-64 | lower-casing an already lower-cased string changes nothing |
| `Decimal.NatToString` | backend/BookManagementApp/Program.cs:73 | the rendering of an id is a non-empty string of decimal digits without a leading zero |
| `Decimal.ParseNatToString` | backend/BookManagementApp/Program.cs:73 | reading the decimal rendering of `n` back gives `n` |
| `Decimal.NatToStringInjective` | backend/BookManagementApp/Program.cs:73 | distinct ids render to distinct strings |
| `CatalogSeed.Seed` | backend/BookManagementApp/Models/AppDbContext.cs:16-19 | the initial table holds exactly ids 1 and 2, each row stored under its own id |
| `CatalogSeed.SeedIsUnique` | backend/BookManagementApp/Models/AppDbContext.cs:17-18 | the two seeded rows differ in lower-cased title and author, so the initial table satisfies the uniqueness rule |
| `CatalogSeed.SeedFieldsPresent` | backend/BookManagementApp/Models/AppDbContext.cs:17-18 | every seeded title, author and isbn is non-empty |
| `CatalogStore.Location` | backend/BookManagementApp/Program.cs:73 | a created book's location is `/api/books/` followed by a non-empty run of digits |
| `CatalogStore.LocationNamesId` | backend/BookManagementApp/Program.cs:73 | a created book's location is `/api/books/` followed by digits that read back as its id |
| `CatalogStore.HasConflict` | backend/BookManagementApp/Program.cs:62-64 | the query asks whether some stored row has the same lower-cased title and author; in a unique table, a conflict is with exactly one row |
| `CatalogStore.ConflictIgnoresCase` | backend/BookManagementApp/Program.cs:62-64 | the duplicate query gives the same answer for a title and author as for their lower-cased forms |
| `CatalogStore.RowsBetween` | backend/BookManagementApp/Program.cs:53-54 | the listing holds only stored rows with ids in range, with strictly increasing ids (so no row twice) |
| `CatalogStore.RowsBetweenComplete` | backend/BookManagementApp/Program.cs:53-54 | every stored row with an id in range appears in the listing |
| `CatalogStore.Overwritten` | backend/BookManagementApp/Program.cs:81-84 | an update keeps the key set, takes title, author, isbn and date from the body, keeps the route's id, leaves every other row alone, and keeps every row under its own id |
| `CatalogStore.InsertPreservesUnique` | backend/BookManagementApp/Program.cs:62-73 | inserting a row under a new id, after the duplicate query found no match, keeps the table unique |
| `CatalogStore.OverwriteUniqueIff` | backend/BookManagementApp/Program.cs:76-88 | an update keeps a unique table unique if and only if no other row has the new lower-cased title and author |
| `CatalogStore.UpdateCanBreakUnique` | backend/BookManagementApp/Program.cs:81-84 | renaming seeded book 2 to book 1's title and author, in other case, turns the unique seed into a table with a duplicate |
| `CatalogStore.RemovePreservesUnique` | backend/BookManagementApp/Program.cs:95-96 | removing a row keeps the table unique |
| `CatalogStore.Catalog.constructor` | backend/BookManagementApp/Migrations/20250521093208_InitialCreate.cs:21-22 | a fresh store holds the seed, and the identity column continues at 3, after the largest seeded id |
| `CatalogStore.Catalog.List` | backend/BookManagementApp/Program.cs:53-54 | the list contains exactly the stored rows, each once, in ascending id order |
| `CatalogStore.Catalog.Get` | backend/BookManagementApp/Program.cs:56-57 | a present id gives Ok with the stored row, whose id is that id; an absent one gives NotFound |
| `CatalogStore.Catalog.Create` | backend/BookManagementApp/Program.cs:59-74 | a lower-cased title/author match gives Conflict with the fixed text and changes nothing; otherwise exactly one row is added, under an id larger than every id in use, with location `/api/books/{id}`; uniqueness is preserved either way |
| `CatalogStore.Catalog.Update` | backend/BookManagementApp/Program.cs:76-88 | an absent id gives NotFound and changes nothing; a present one gives NoContent and replaces the four data fields under the route's id, ignoring the body's id, with every other row untouched |
| `CatalogStore.Catalog.Delete` | backend/BookManagementApp/Program.cs:90-98 | an absent id gives NotFound and changes nothing; a present one gives NoContent and removes exactly that row; uniqueness is preserved |
| `CatalogStore.SeededListing` | backend/BookManagementApp/Models/AppDbContext.cs:16-19 | listing a freshly seeded store gives Gatsby (id 1) then Mockingbird (id 2), with all their field values |
| `CatalogStore.CreateThenGet` | backend/BookManagementApp/Program.cs:71-73 | creating "Dune" in a fresh store gives Created at `/api/books/3`, and getting id 3 returns the same record |
| `CatalogStore.CreateDuplicate` | backend/BookManagementApp/Program.cs:62-69 | creating the first seeded book again in lower case gives Conflict and leaves the table as it was |
| `BookServiceModel.BodyOrDefault` | frontend/src/app/services/book.service.ts:62-64 | a 409 whose body is a non-empty text gets that text as its message; any other body gets the fixed duplicate text |
| `BookServiceModel.ParseErrorMessage` | frontend/src/app/services/book.service.ts:142-168 | the message is never empty; the 409 test comes first, then a client-side event gives "Client error: …"; otherwise 0 gives the network text, 400 the bad-request text, 404 "Book not found", 500 the server-error text, and any other status "Unexpected error: …" |
| `BookServiceModel.StatusText` | frontend/src/app/services/book.service.ts:154-167 | the switch is never empty; 0 gives the network text, 400 the bad-request text, 404 "Book not found", 409 "Conflict: Book already exists", 500 the server-error text, and any other status the prefix "Unexpected error: " followed by the transport's description |
| `BookServiceModel.ConflictMessageIsServerText` | frontend/src/app/services/book.service.ts:143-148 | a 409 with a non-empty text body shows exactly that text, whatever the transport's description; a 409 without a non-empty text body shows the fixed duplicate text |
| `BookServiceModel.SwitchConflictArmUnreachable` | frontend/src/app/services/book.service.ts:143-162 | "Conflict: Book already exists" comes out only for a 409 whose body is that very text, so the switch's own 409 arm never runs |
| `BookServiceModel.FixedStatusTextsDistinct` | frontend/src/app/services/book.service.ts:154-166 | among statuses 0, 400, 404 and 500, two errors get the same message exactly when they have the same status |
| `BookServiceModel.BookService.constructor` | frontend/src/app/services/book.service.ts:19-23 | a new service starts with both cache slots empty and nothing sent or shown |
| `BookServiceModel.BookService.GetBooks` | frontend/src/app/services/book.service.ts:26-34 | a filled list slot is returned as it is with no request; an empty one is filled by exactly one new list request; the per-id map is untouched |
| `BookServiceModel.BookService.GetBook` | frontend/src/app/services/book.service.ts:37-50 | an id of 0 or less fails with "Invalid book ID" and touches neither caches nor network; otherwise a cached entry is returned with no request, or exactly one request fills the entry for that id, and every other entry is unchanged |
| `BookServiceModel.BookService.ClearCache` | frontend/src/app/services/book.service.ts:108-111 | both slots become empty; nothing else changes |
| `BookServiceModel.BookService.HandleError` | frontend/src/app/services/book.service.ts:134-139 | shows one error notification with the parsed message and fails with that message, leaving the caches alone |
| `BookServiceModel.BookService.AddBook` | frontend/src/app/services/book.service.ts:53-75 | always sends the POST; success empties both slots and notifies once; failure leaves both slots; a 409 fails with status 409 and the body-or-default text, notified once; any other failure fails with the parsed message |
| `BookServiceModel.BookService.UpdateBook` | frontend/src/app/services/book.service.ts:78-90 | an id of 0 or less fails locally with nothing sent, shown or cleared; otherwise one PUT; success empties both slots, failure leaves them and fails with the parsed message |
| `BookServiceModel.BookService.DeleteBook` | frontend/src/app/services/book.service.ts:93-105 | an id of 0 or less fails locally with nothing sent, shown or cleared; otherwise one DELETE; success empties both slots, failure leaves them and fails with the parsed message |
| `BookServiceModel.ListCachedUntilWrite` | frontend/src/app/services/book.service.ts:26-34 | two list reads share one request; after a successful add the next read issues a new one |
| `BookServiceModel.FailedWriteKeepsCache` | frontend/src/app/services/book.service.ts:54-74 | after a failed add the list read is still served from the cache |
| `AddBookView.AddBookForm.constructor` | frontend/src/app/components/add-book/add-book.component.ts:48-56 | the form starts empty and neither submitting nor flagged as a duplicate |
| `Ui.RequiredFieldsFilled` | frontend/src/app/components/add-book/add-book.component.ts:109 | a form whose title, author and isbn are all filled in also counts as having unsaved data |
| `Ui.AnyFieldFilled` | frontend/src/app/components/add-book/add-book.component.ts:113 | some text field is filled in exactly when the three texts together are not empty |
| `AddBookView.AddBookForm.IsFormValid` | frontend/src/app/components/add-book/add-book.component.ts:108-110 | a form that may be submitted has a non-empty title, author and isbn, so leaving it asks for confirmation |
| `AddBookView.AddBookForm.SaveBook` | frontend/src/app/components/add-book/add-book.component.ts:63-77 | an invalid form (a title, author or isbn empty) makes no service call, notifies once and keeps both flags; a valid one raises `isSubmitting`, clears `duplicateError` and sends the form's book |
| `AddBookView.AddBookForm.OnSaved` | frontend/src/app/components/add-book/add-book.component.ts:79-85 | success notifies and navigates to the list, and resets no flag |
| `AddBookView.AddBookForm.OnSaveFailed` | frontend/src/app/components/add-book/add-book.component.ts:86-104 | any failure ends submitting; a status-409 error raises `duplicateError`, any other keeps it and shows the generic failure text |
| `AddBookView.AddBookForm.NavigateToList` | frontend/src/app/components/add-book/add-book.component.ts:112-135 | a dialog opens if and only if title, author or isbn is non-empty; navigation happens if and only if no field is filled or the dialog is confirmed |
| `AddBookView.Submit` | frontend/src/app/components/add-book/add-book.component.ts:63-106 | a submission ends flagged as a duplicate exactly when a filled-in form met a 409, and still submitting exactly when the add succeeded; a POST goes out exactly when the form is filled in |
| `EditBookView.EditBookForm.constructor` | frontend/src/app/components/edit-book/edit-book.component.ts:52-63 | a blank book with id 0; no loading, no submitting, no message |
| `EditBookView.EditBookForm.GetBook` | frontend/src/app/components/edit-book/edit-book.component.ts:75-79 | loading starts and the message is cleared before the service is asked for `id` |
| `EditBookView.EditBookForm.OnBookLoaded` | frontend/src/app/components/edit-book/edit-book.component.ts:80-83 | the loaded book is shown and loading ends |
| `EditBookView.EditBookForm.OnLoadFailed` | frontend/src/app/components/edit-book/edit-book.component.ts:84-89 | the fixed load-failure text is set, loading ends, and the previous book is kept |
| `EditBookView.EditBookForm.IsFormValid` | frontend/src/app/components/edit-book/edit-book.component.ts:117-119 | the edit form may be submitted exactly when title, author and isbn are all non-empty; the id and the date are not checked |
| `EditBookView.EditBookForm.UpdateBook` | frontend/src/app/components/edit-book/edit-book.component.ts:93-103 | an invalid form makes no call and keeps `isSubmitting`; a valid one raises it, clears the message and sends the book under its own `book.id` |
| `EditBookView.EditBookForm.OnUpdated` | frontend/src/app/components/edit-book/edit-book.component.ts:106-109 | success notifies and navigates to the list |
| `EditBookView.EditBookForm.OnUpdateFailed` | frontend/src/app/components/edit-book/edit-book.component.ts:110-113 | failure sets and notifies the fixed update-failure text and ends submitting |
| `EditBookView.EditBookForm.NavigateToList` | frontend/src/app/components/edit-book/edit-book.component.ts:121-127 | as `hasUnsavedChanges` is never raised, leaving always navigates at once, with no dialog |
| `EditBookView.UpdateAfterFailedLoad` | frontend/src/app/components/edit-book/edit-book.component.ts:99-113 | after a failed load the book keeps id 0; saving it is refused by the service's id guard with no PUT sent, and the view shows the update failure |
| `BookListView.WithoutId` | frontend/src/app/components/book-list/book-list.component.ts:101 | the filtered list holds exactly the books whose id differs from the deleted one, and is no longer |
| `BookListView.WithoutIdConcat` | frontend/src/app/components/book-list/book-list.component.ts:101 | filtering a concatenation is concatenating the filtered parts, so relative order is kept |
| `BookListView.WithoutIdCounts` | frontend/src/app/components/book-list/book-list.component.ts:101 | each book with another id is kept as many times as it occurred; none with the deleted id remains |
| `BookListView.WithoutIdAbsent` | frontend/src/app/components/book-list/book-list.component.ts:101 | when no book has the id, the list is unchanged |
| `BookListView.WithoutIdIdempotent` | frontend/src/app/components/book-list/book-list.component.ts:101 | filtering the same id twice is filtering once |
| `BookListView.BookList.constructor` | frontend/src/app/components/book-list/book-list.component.ts:43-45 | an empty list, not loading, no message |
| `BookListView.BookList.LoadBooks` | frontend/src/app/components/book-list/book-list.component.ts:63-65 | loading starts and the message is cleared before the call; the list is kept |
| `BookListView.BookList.OnBooksLoaded` | frontend/src/app/components/book-list/book-list.component.ts:71-74 | the list is replaced by the result and loading ends |
| `BookListView.BookList.OnLoadFailed` | frontend/src/app/components/book-list/book-list.component.ts:75-79 | the list is kept, the fixed message is set and loading ends |
| `BookListView.BookList.DeleteBook` | frontend/src/app/components/book-list/book-list.component.ts:83-109 | the "Confirm Delete" dialog always opens; the service is called exactly when its answer is truthy; a successful delete removes that id from the list, anything else leaves the list unchanged |

## Left out

- Host wiring in `Program.cs` is not modelled: dependency injection, the SQL Server provider, Swagger, CORS, HTTPS redirection and `app.Run`. It has no behaviour of its own.
- The startup migration and its error logging, and the migration's DDL, are database tooling. Only the identity column's seed and step (1, 1) are used, for the allocator.
- Entity Framework's transactions and isolation are not modelled. In particular, the race between two concurrent creates of the same title and author is concurrency. Each endpoint is one atomic step.
- BookModel.LowerChar: folds only ASCII A-Z. The database's `LOWER` and collation are culture-dependent, and this model does not capture them. The duplicate query's `=` also runs under SQL Server's comparison rules, which ignore trailing spaces: the model treats "Dune " and "Dune" as different titles, while the server reports them as a conflict (the same holds for CatalogStore.HasConflict).
- Ids are unbounded integers. The 32-bit `int` id and identity overflow are not modelled.
- CatalogStore.Catalog.Create takes a book without an id. A POST body carrying a non-zero id would be refused by the database's identity column, and that failure is not modelled.
- Store-level failures, such as an unreachable database, surface as a generic server error. They are not modelled.
- BookServiceModel.BookService.GetBooks: the error path of a read is not modelled (the same holds for BookServiceModel.BookService.GetBook). On a read, `handleError` runs when the observable is subscribed, not when it is created. The cached observable is an opaque token, so `shareReplay` replay, in-flight sharing and `takeUntil` teardown are not modelled either.
- BookServiceModel.BodyOrDefault: for a 409 whose error payload is a client-side `ErrorEvent`, JavaScript's `||` would return the event object itself. The model gives the default text there. The HTTP client reports such events with status 0, not 409.
- The HTTP transport is not modelled: URLs beyond the request kind, headers, JSON encoding. Neither are snackbar durations and styling, dialog sizes and texts other than the title, and `console.error` logging.
- Dates are opaque year/month/day triples. `minDate`/`maxDate`, the date picker and `formatDate` are not modelled.
- BookServiceModel.BookService.GetBook: ids are modelled as integers, while the client's ids are JavaScript numbers. `NaN` (which `Number(...)` gives for a non-numeric route) and fractional values pass the `id <= 0` guard, so the client fetches and caches them; the model cannot express them, and `BookService.Valid`'s "only positive ids are cached" holds only for integer ids (the same holds for the guards of UpdateBook and DeleteBook).
- EditBookView.EditBookForm.OnBookLoaded: the model copies the loaded `Book` by value. In the client, the edit view stores the very object that the cached `getBook(id)` observable replays to every later subscriber, and the form's bindings edit that object in place. Leaving without saving clears no cache, so reopening the same id shows the unsaved edits. This aliasing is not modelled.
- The edit view's `ngOnInit` reads the id from the route with `Number(...)`. The model takes that id as the argument of `EditBookView.EditBookForm.GetBook`. The component teardown (`ngOnDestroy`) is not modelled.
- The book-details view is not part of this model. It only loads and shows one book, and its logic is the same as the edit view's `getBook`.
