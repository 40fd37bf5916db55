/** The catalogue store: the five endpoints of backend/BookManagementApp/Program.cs
    acting on the Books table, with the table's identity column as an id allocator. */
module CatalogStore {
  import opened BookModel
  import opened Decimal
  import CatalogSeed

  const DuplicateMessage := "A book with the same title and author already exists"

  const BooksPath := "/api/books/"

  /** What an endpoint answers: the `Results.*` value it returns. */
  datatype Response =
    | BookOk(book: Book)
    | Created(location: string, book: Book)
    | NoContent
    | NotFound
    | Conflict(message: string)

  /** The Location header of a created book. */
  function Location(id: nat): (loc: string)
    ensures |loc| > |BooksPath| && loc[..|BooksPath|] == BooksPath
    ensures forall k :: |BooksPath| <= k < |loc| ==> IsDigit(loc[k])
  {
    BooksPath + NatToString(id)
  }

  /** The id can be read back from the location of a created book. */
  lemma LocationNamesId(id: nat)
    ensures |Location(id)| > |BooksPath|
    ensures Location(id)[..|BooksPath|] == BooksPath
    ensures ParseDigits(Location(id)[|BooksPath|..]) == id
  {
    assert Location(id)[|BooksPath|..] == NatToString(id);
    ParseNatToString(id);
  }

  /** The query of the create endpoint: does some row have the same
      lower-cased title and author? In a unique table, a conflict is with
      exactly one row. */
  predicate HasConflict(t: Table, title: string, author: string)
    ensures HasConflict(t, title, author) && Unique(t) ==>
      exists id :: id in t && forall j :: j in t ==> (SameTitleAndAuthor(t[j], title, author) <==> j == id)
  {
    exists id :: id in t && SameTitleAndAuthor(t[id], title, author)
  }

  /** The query ignores the case of the submitted title and author. */
  lemma ConflictIgnoresCase(t: Table, title: string, author: string)
    ensures HasConflict(t, title, author) <==> HasConflict(t, Lower(title), Lower(author))
  {
  }

  /** The rows whose ids lie in [lo, hi), in ascending id order: each one a
      stored row, and their ids strictly increasing. */
  function RowsBetween(t: Table, lo: int, hi: int): (rows: seq<Book>)
    requires WellKeyed(t)
    ensures forall k :: 0 <= k < |rows| ==> lo <= rows[k].id < hi && rows[k] in t.Values
    ensures forall j, k :: 0 <= j < k < |rows| ==> rows[j].id < rows[k].id
    decreases hi - lo
  {
    if hi <= lo then []
    else if hi - 1 in t then RowsBetween(t, lo, hi - 1) + [t[hi - 1]]
    else RowsBetween(t, lo, hi - 1)
  }

  /** No row with an id in [lo, hi) is missing from the listing. */
  lemma {:induction false} RowsBetweenComplete(t: Table, lo: int, hi: int, id: int)
    requires WellKeyed(t) && id in t && lo <= id < hi
    ensures t[id] in RowsBetween(t, lo, hi)
    decreases hi - lo
  {
    if id < hi - 1 {
      RowsBetweenComplete(t, lo, hi - 1, id);
    }
  }

  /** The row an update leaves under `id`: the body's data fields, the route's id. */
  function Overwritten(t: Table, id: int, body: Book): (t': Table)
    requires id in t
    ensures t'.Keys == t.Keys
    ensures t'[id].id == id && t'[id].title == body.title && t'[id].author == body.author
    ensures t'[id].isbn == body.isbn && t'[id].publicationDate == body.publicationDate
    ensures forall k :: k in t && k != id ==> t'[k] == t[k]
    ensures WellKeyed(t) ==> WellKeyed(t')
  {
    t[id := Book(id, body.title, body.author, body.isbn, body.publicationDate)]
  }

  /** A create that passed the duplicate test keeps the table unique. */
  lemma InsertPreservesUnique(t: Table, b: Book)
    requires Unique(t) && b.id !in t
    requires !HasConflict(t, b.title, b.author)
    ensures Unique(t[b.id := b])
  {
  }

  /** An update keeps the table unique exactly when no other row has the
      new lower-cased (title, author) pair. */
  lemma OverwriteUniqueIff(t: Table, id: int, body: Book)
    requires Unique(t) && id in t
    ensures Unique(Overwritten(t, id, body)) <==> !HasConflict(t - {id}, body.title, body.author)
  {
    var t' := Overwritten(t, id, body);
    if HasConflict(t - {id}, body.title, body.author) {
      var other :| other in t - {id} && SameTitleAndAuthor(t[other], body.title, body.author);
      assert t'[other] == t[other] && t'[id].title == body.title && t'[id].author == body.author;
      assert !Unique(t');
    } else {
      forall i, j | i in t' && j in t' && i != j
        ensures !SameTitleAndAuthor(t'[i], t'[j].title, t'[j].author)
      {
        if i == id {
          assert j in t - {id};
          assert !SameTitleAndAuthor(t[j], body.title, body.author);
        } else if j == id {
          assert i in t - {id};
          assert !SameTitleAndAuthor(t[i], body.title, body.author);
        }
      }
    }
  }

  /** Update does not re-check the rule: renaming the seeded second book to the
      first one's title and author (in another case) makes a duplicate. */
  lemma UpdateCanBreakUnique()
    ensures Unique(CatalogSeed.Seed())
    ensures !Unique(Overwritten(CatalogSeed.Seed(), 2,
      Book(0, "THE GREAT GATSBY", "f. scott fitzgerald", "9780061120084", Date(1960, 7, 11))))
  {
    CatalogSeed.SeedIsUnique();
    var t := CatalogSeed.Seed();
    var t' := Overwritten(t, 2, Book(0, "THE GREAT GATSBY", "f. scott fitzgerald", "9780061120084", Date(1960, 7, 11)));
    assert Lower(t'[1].title) == Lower(t'[2].title);
    assert Lower(t'[1].author) == Lower(t'[2].author);
    assert SameTitleAndAuthor(t'[1], t'[2].title, t'[2].author);
  }

  /** Removing a row keeps the table unique. */
  lemma RemovePreservesUnique(t: Table, id: int)
    requires Unique(t)
    ensures Unique(t - {id})
  {
  }

  /** The Books table and the next value of its identity column. */
  class Catalog {
    var books: Table
    var nextId: int

    /** Rows sit under their own ids, and every id in use was handed out
        earlier by the allocator, which starts at 1 and never goes back. */
    ghost predicate Valid()
      reads this
    {
      && WellKeyed(books)
      && 1 <= nextId
      && forall id :: id in books ==> 1 <= id < nextId
    }

    /** A freshly created table: the two seeded rows; the identity column
        continues after the largest seeded id. */
    constructor ()
      ensures Valid()
      ensures books == CatalogSeed.Seed() && nextId == 3
    {
      books := CatalogSeed.Seed();
      nextId := 3;
    }

    /** GET /api/books: every stored row exactly once, in ascending id order. */
    method List() returns (rows: seq<Book>)
      requires Valid()
      ensures rows == RowsBetween(books, 1, nextId)
      ensures forall b :: b in rows <==> b in books.Values
      ensures forall j, k :: 0 <= j < k < |rows| ==> rows[j].id < rows[k].id
    {
      rows := RowsBetween(books, 1, nextId);
      forall id | id in books ensures books[id] in rows {
        RowsBetweenComplete(books, 1, nextId, id);
      }
    }

    /** GET /api/books/{id}. */
    method Get(id: int) returns (r: Response)
      requires Valid()
      ensures id in books ==> r == BookOk(books[id]) && r.book.id == id
      ensures id !in books ==> r == NotFound
    {
      if id in books {
        r := BookOk(books[id]);
      } else {
        r := NotFound;
      }
    }

    /** POST /api/books. */
    method Create(draft: Draft) returns (r: Response)
      requires Valid()
      modifies this
      ensures Valid()
      ensures HasConflict(old(books), draft.title, draft.author) ==>
        r == Conflict(DuplicateMessage) && books == old(books) && nextId == old(nextId)
      ensures !HasConflict(old(books), draft.title, draft.author) ==>
        && old(nextId) !in old(books)
        && (forall id :: id in old(books) ==> id < old(nextId))
        && r == Created(Location(old(nextId)), WithId(draft, old(nextId)))
        && books == old(books)[old(nextId) := WithId(draft, old(nextId))]
        && nextId == old(nextId) + 1
      ensures old(Unique(books)) ==> Unique(books)
    {
      if HasConflict(books, draft.title, draft.author) {
        return Conflict(DuplicateMessage);
      }
      var book := WithId(draft, nextId);
      if Unique(books) {
        InsertPreservesUnique(books, book);
      }
      books := books[nextId := book];
      nextId := nextId + 1;
      r := Created(Location(book.id), book);
    }

    /** PUT /api/books/{id}: overwrites the four data fields, ignores the
        body's id, and does not re-check for duplicates. */
    method Update(id: int, body: Book) returns (r: Response)
      requires Valid()
      modifies this
      ensures Valid()
      ensures id !in old(books) ==> r == NotFound && books == old(books)
      ensures id in old(books) ==> r == NoContent && books == Overwritten(old(books), id, body)
      ensures nextId == old(nextId)
    {
      if id !in books {
        return NotFound;
      }
      books := Overwritten(books, id, body);
      r := NoContent;
    }

    /** DELETE /api/books/{id}. */
    method Delete(id: int) returns (r: Response)
      requires Valid()
      modifies this
      ensures Valid()
      ensures id !in old(books) ==> r == NotFound && books == old(books)
      ensures id in old(books) ==> r == NoContent && books == old(books) - {id}
      ensures nextId == old(nextId)
      ensures old(Unique(books)) ==> Unique(books)
    {
      if id !in books {
        return NotFound;
      }
      books := books - {id};
      r := NoContent;
    }
  }

  /** On a freshly seeded store, GET /api/books lists the two seeded books. */
  method SeededListing() returns (rows: seq<Book>)
    ensures rows == [
      Book(1, "The Great Gatsby", "F. Scott Fitzgerald", "9780743273565", Date(1925, 4, 10)),
      Book(2, "To Kill a Mockingbird", "Harper Lee", "9780061120084", Date(1960, 7, 11))]
  {
    var store := new Catalog();
    assert RowsBetween(store.books, 1, 1) == [];
    assert RowsBetween(store.books, 1, 2) == [CatalogSeed.Gatsby];
    assert RowsBetween(store.books, 1, 3) == [CatalogSeed.Gatsby, CatalogSeed.Mockingbird];
    rows := store.List();
  }

  /** Creating a book that is not yet present and reading it back by the id
      in its location gives the same fields under the next id. */
  method CreateThenGet() returns (created: Response, fetched: Response)
    ensures created == Created("/api/books/3",
      Book(3, "Dune", "Frank Herbert", "9780441013593", Date(1965, 8, 1)))
    ensures fetched == BookOk(created.book)
  {
    var store := new Catalog();
    var dune := Draft("Dune", "Frank Herbert", "9780441013593", Date(1965, 8, 1));
    assert !HasConflict(store.books, dune.title, dune.author) by {
      assert |Lower(dune.title)| != |Lower(CatalogSeed.Gatsby.title)|;
      assert |Lower(dune.title)| != |Lower(CatalogSeed.Mockingbird.title)|;
    }
    created := store.Create(dune);
    fetched := store.Get(3);
  }

  /** Creating the first seeded book again, in lower case, is a conflict and
      changes nothing. */
  method CreateDuplicate() returns (r: Response, before: Table, after: Table)
    ensures r == Conflict("A book with the same title and author already exists")
    ensures after == before
  {
    var store := new Catalog();
    before := store.books;
    var again := Draft("the great gatsby", "f. scott fitzgerald", "0000000000000", Date(2000, 1, 1));
    assert SameTitleAndAuthor(before[1], again.title, again.author) by {
      assert Lower(before[1].title) == Lower(again.title);
      assert Lower(before[1].author) == Lower(again.author);
    }
    r := store.Create(again);
    after := store.books;
  }
}
