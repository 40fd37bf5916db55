/** The book-list view (frontend/src/app/components/book-list/book-list.component.ts):
    loading the list with its `isLoading` / `errorMessage` flags, and deleting
    a book behind a confirmation dialog, which removes it from the list shown. */
module BookListView {
  import opened Wrappers
  import opened BookModel
  import opened Ui
  import opened BookServiceModel

  const LoadFailedText := "Failed to load books. Please try again later."

  const ConfirmDeleteTitle := "Confirm Delete"

  /** The list shown after a delete: the books whose id is not the deleted
      one, in their original order. */
  function WithoutId(books: seq<Book>, id: int): (kept: seq<Book>)
    ensures forall b :: b in kept <==> b in books && b.id != id
    ensures |kept| <= |books|
  {
    if books == [] then []
    else (if books[0].id != id then [books[0]] else []) + WithoutId(books[1..], id)
  }

  /** The filter works piece by piece, so it keeps the relative order of
      what it keeps. */
  lemma {:induction false} WithoutIdConcat(a: seq<Book>, b: seq<Book>, id: int)
    ensures WithoutId(a + b, id) == WithoutId(a, id) + WithoutId(b, id)
    decreases |a|
  {
    if a != [] {
      assert (a + b)[1..] == a[1..] + b;
      WithoutIdConcat(a[1..], b, id);
    } else {
      assert a + b == b;
    }
  }

  /** Every book with another id is kept as many times as it occurred;
      none with the deleted id is left. */
  lemma {:induction false} WithoutIdCounts(books: seq<Book>, id: int, b: Book)
    ensures multiset(WithoutId(books, id))[b] == if b.id == id then 0 else multiset(books)[b]
    decreases |books|
  {
    if books != [] {
      WithoutIdCounts(books[1..], id, b);
      assert books == [books[0]] + books[1..];
    }
  }

  /** With no book carrying the id, the filter changes nothing; so filtering
      twice is filtering once. */
  lemma {:induction false} WithoutIdAbsent(books: seq<Book>, id: int)
    requires forall k :: 0 <= k < |books| ==> books[k].id != id
    ensures WithoutId(books, id) == books
    decreases |books|
  {
    if books != [] {
      WithoutIdAbsent(books[1..], id);
    }
  }

  lemma WithoutIdIdempotent(books: seq<Book>, id: int)
    ensures WithoutId(WithoutId(books, id), id) == WithoutId(books, id)
  {
    var once := WithoutId(books, id);
    forall k | 0 <= k < |once| ensures once[k].id != id {
      assert once[k] in once;
    }
    WithoutIdAbsent(once, id);
  }

  class BookList {
    var books: seq<Book>
    var isLoading: bool
    var errorMessage: string

    constructor ()
      ensures books == [] && !isLoading && errorMessage == ""
    {
      books := [];
      isLoading := false;
      errorMessage := "";
    }

    /** `loadBooks` up to the service call: loading starts and the message is cleared. */
    method LoadBooks()
      modifies this
      ensures isLoading && errorMessage == "" && books == old(books)
    {
      isLoading := true;
      errorMessage := "";
    }

    /** The load's `next` callback: show the result, stop loading. */
    method OnBooksLoaded(loaded: seq<Book>)
      modifies this
      ensures books == loaded && !isLoading && errorMessage == old(errorMessage)
    {
      books := loaded;
      isLoading := false;
    }

    /** The load's `error` callback: keep the old list, set the fixed message, stop loading. */
    method OnLoadFailed()
      modifies this
      ensures books == old(books) && !isLoading && errorMessage == LoadFailedText
    {
      errorMessage := LoadFailedText;
      isLoading := false;
    }

    /** `deleteBook`: a confirmation dialog always opens; `confirmed` is what
        it closes with, `outcome` how the service's delete ends. The service
        is called only on a truthy answer; only a successful delete changes
        the list. */
    method DeleteBook(id: int, confirmed: bool, outcome: Result<(), ServiceError>)
      returns (request: Option<int>, effects: seq<Effect>)
      modifies this
      ensures effects == [Dialog(ConfirmDeleteTitle)]
      ensures request == if confirmed then Some(id) else None
      ensures confirmed && outcome.Ok? ==> books == WithoutId(old(books), id)
      ensures !(confirmed && outcome.Ok?) ==> books == old(books)
      ensures isLoading == old(isLoading) && errorMessage == old(errorMessage)
    {
      effects := [Dialog(ConfirmDeleteTitle)];
      request := None;
      if confirmed {
        request := Some(id);
        if outcome.Ok? {
          books := WithoutId(books, id);
        }
      }
    }
  }
}
