/** The edit-book view (frontend/src/app/components/edit-book/edit-book.component.ts):
    loading the book, the `isLoading` / `isSubmitting` / `errorMessage` flags
    around the update, and leaving without a dialog. The subscription
    callbacks are separate methods, run when the service call ends. */
module EditBookView {
  import opened Wrappers
  import opened BookModel
  import opened Ui
  import opened BookServiceModel

  const LoadFailedText := "Failed to load book details. Please try again later."
  const UpdateFailedText := "Failed to update book. Please try again."

  class EditBookForm {
    var book: Book
    var isLoading: bool
    var isSubmitting: bool
    var errorMessage: string
    var hasUnsavedChanges: bool

    /** Nothing in the view ever raises `hasUnsavedChanges`. */
    ghost predicate Valid()
      reads this
    {
      !hasUnsavedChanges
    }

    /** The blank book shown before loading: id 0, empty fields, date `today`. */
    constructor (today: Date)
      ensures Valid()
      ensures book == Book(0, "", "", "", today)
      ensures !isLoading && !isSubmitting && errorMessage == ""
    {
      book := Book(0, "", "", "", today);
      isLoading := false;
      isSubmitting := false;
      errorMessage := "";
      hasUnsavedChanges := false;
    }

    /** The submit test: title, author and isbn non-empty; the id and the
        date are not looked at, so the blank id-0 book passes once filled in. */
    predicate IsFormValid()
      reads this
      ensures IsFormValid() ==> book.title != "" && book.author != "" && book.isbn != ""
      ensures book.title != "" && book.author != "" && book.isbn != "" ==> IsFormValid()
    {
      RequiredFieldsFilled(book.title, book.author, book.isbn)
    }

    /** `getBook` up to the service call: loading starts and the message is
        cleared; the id asked for is `id`, unchecked. */
    method GetBook(id: int) returns (request: int)
      requires Valid()
      modifies this
      ensures Valid()
      ensures request == id
      ensures isLoading && errorMessage == ""
      ensures book == old(book) && isSubmitting == old(isSubmitting)
    {
      isLoading := true;
      errorMessage := "";
      request := id;
    }

    /** The load's `next` callback: show the book, stop loading. */
    method OnBookLoaded(loaded: Book)
      requires Valid()
      modifies this
      ensures Valid()
      ensures book == loaded && !isLoading
      ensures errorMessage == old(errorMessage) && isSubmitting == old(isSubmitting)
    {
      book := loaded;
      isLoading := false;
    }

    /** The load's `error` callback: set the fixed message, stop loading,
        keep whatever book was shown. */
    method OnLoadFailed()
      requires Valid()
      modifies this
      ensures Valid()
      ensures errorMessage == LoadFailedText && !isLoading
      ensures book == old(book) && isSubmitting == old(isSubmitting)
    {
      errorMessage := LoadFailedText;
      isLoading := false;
    }

    /** `updateBook` up to the service call: an invalid form is refused with a
        notification; a valid one starts submitting, clears the message and
        is sent under the book's own id. */
    method UpdateBook() returns (request: Option<(int, Book)>, effects: seq<Effect>)
      requires Valid()
      modifies this
      ensures Valid()
      ensures book == old(book) && isLoading == old(isLoading)
      ensures request.Some? <==> old(IsFormValid())
      ensures !old(IsFormValid()) ==>
        && effects == [Snack(Failure, FillRequiredText)]
        && isSubmitting == old(isSubmitting) && errorMessage == old(errorMessage)
      ensures old(IsFormValid()) ==>
        request == Some((book.id, book)) && effects == [] && isSubmitting && errorMessage == ""
    {
      if !IsFormValid() {
        return None, [Snack(Failure, FillRequiredText)];
      }
      isSubmitting := true;
      errorMessage := "";
      request := Some((book.id, book));
      effects := [];
    }

    /** The update's `next` callback: notify and go back to the list; no flag changes. */
    method OnUpdated() returns (effects: seq<Effect>)
      ensures effects == [Snack(Success, UpdatedText), Navigate(BooksRoute)]
    {
      effects := [Snack(Success, UpdatedText), Navigate(BooksRoute)];
    }

    /** The update's `error` callback: the fixed failure text is shown and
        notified, and the submission ends. */
    method OnUpdateFailed() returns (effects: seq<Effect>)
      requires Valid()
      modifies this
      ensures Valid()
      ensures errorMessage == UpdateFailedText && !isSubmitting
      ensures effects == [Snack(Failure, UpdateFailedText)]
      ensures book == old(book) && isLoading == old(isLoading)
    {
      errorMessage := UpdateFailedText;
      effects := [Snack(Failure, UpdateFailedText)];
      isSubmitting := false;
    }

    /** `navigateToList`: since `hasUnsavedChanges` is never raised, the view
        always navigates at once, whatever a dialog would have answered. */
    method NavigateToList(confirmed: bool) returns (effects: seq<Effect>)
      requires Valid()
      ensures effects == [Navigate(BooksRoute)]
    {
      if hasUnsavedChanges {
        effects := [Dialog(UnsavedChangesTitle)] + (if confirmed then [Navigate(BooksRoute)] else []);
      } else {
        effects := [Navigate(BooksRoute)];
      }
    }
  }

  /** A load that fails leaves the blank book with id 0; filling in the fields
      and saving then reaches the service's id guard, which refuses locally:
      no request is sent and the view shows the update failure. */
  method UpdateAfterFailedLoad(today: Date, id: int, title: string, author: string, isbn: string)
    returns (message: string, submitting: bool, log: seq<HttpCall>)
    requires RequiredFieldsFilled(title, author, isbn)
    ensures message == UpdateFailedText && !submitting
    ensures log == if id > 0 then [GetOne(id)] else []
  {
    var service := new BookService();
    var form := new EditBookForm(today);
    var asked := form.GetBook(id);
    var _ := service.GetBook(asked);
    form.OnLoadFailed();
    form.book := form.book.(title := title, author := author, isbn := isbn);
    var request, _ := form.UpdateBook();
    var result := service.UpdateBook(request.value.0, request.value.1, Delivered(()));
    assert result == Err(MessageError(InvalidIdText));
    var _ := form.OnUpdateFailed();
    message, submitting := form.errorMessage, form.isSubmitting;
    log := service.sent;
  }
}
