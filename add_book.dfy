/** The add-book view (frontend/src/app/components/add-book/add-book.component.ts):
    field-presence validation, the `isSubmitting` / `duplicateError` flags,
    and the unsaved-data check before leaving. The subscription's `next` and
    `error` callbacks are separate methods, run when the service call ends. */
module AddBookView {
  import opened Wrappers
  import opened BookModel
  import opened Ui
  import opened BookServiceModel

  const AddFailedText := "Failed to add book. Please try again."

  class AddBookForm {
    var book: Draft
    var isSubmitting: bool
    var duplicateError: bool

    /** A duplicate is only ever flagged once the submission has ended. */
    ghost predicate Valid()
      reads this
    {
      !(isSubmitting && duplicateError)
    }

    /** An empty form whose date field starts at `today`. */
    constructor (today: Date)
      ensures Valid()
      ensures book == Draft("", "", "", today) && !isSubmitting && !duplicateError
    {
      book := Draft("", "", "", today);
      isSubmitting := false;
      duplicateError := false;
    }

    /** The submit test: title, author and isbn non-empty. A form that
        passes it always counts as unsaved data when leaving. */
    predicate IsFormValid()
      reads this
      ensures IsFormValid() ==> book.title != "" && book.author != "" && book.isbn != ""
      ensures IsFormValid() ==> AnyFieldFilled(book.title, book.author, book.isbn)
    {
      RequiredFieldsFilled(book.title, book.author, book.isbn)
    }

    /** `saveBook` up to the service call: an invalid form is refused with a
        notification; a valid one raises `isSubmitting`, clears
        `duplicateError`, and is sent to the service's add. */
    method SaveBook() returns (request: Option<Draft>, effects: seq<Effect>)
      requires Valid()
      modifies this
      ensures Valid()
      ensures book == old(book)
      ensures request.Some? <==> old(IsFormValid())
      ensures !old(IsFormValid()) ==>
        && effects == [Snack(Failure, FillRequiredText)]
        && isSubmitting == old(isSubmitting) && duplicateError == old(duplicateError)
      ensures old(IsFormValid()) ==>
        request == Some(book) && effects == [] && isSubmitting && !duplicateError
    {
      if !IsFormValid() {
        return None, [Snack(Failure, FillRequiredText)];
      }
      isSubmitting := true;
      duplicateError := false;
      request := Some(book);
      effects := [];
    }

    /** The `next` callback: notify and go back to the list. Nothing is reset;
        in particular `isSubmitting` stays as it was. */
    method OnSaved() returns (effects: seq<Effect>)
      ensures effects == [Snack(Success, AddedText), Navigate(BooksRoute)]
    {
      effects := [Snack(Success, AddedText), Navigate(BooksRoute)];
    }

    /** The `error` callback: the submission ends; only an error carrying
        status 409 flags a duplicate. */
    method OnSaveFailed(err: ServiceError) returns (effects: seq<Effect>)
      requires Valid()
      modifies this
      ensures Valid()
      ensures !isSubmitting && book == old(book)
      ensures err.StatusError? && err.status == 409 ==>
        && duplicateError
        && effects == [Snack(Failure, if err.message != "" then err.message else DuplicateText)]
      ensures !(err.StatusError? && err.status == 409) ==>
        duplicateError == old(duplicateError) && effects == [Snack(Failure, AddFailedText)]
    {
      isSubmitting := false;
      if err.StatusError? && err.status == 409 {
        duplicateError := true;
        effects := [Snack(Failure, if err.message != "" then err.message else DuplicateText)];
      } else {
        effects := [Snack(Failure, AddFailedText)];
      }
    }

    /** `navigateToList`: any typed text asks for confirmation first;
        `confirmed` is what the dialog closes with. */
    method NavigateToList(confirmed: bool) returns (effects: seq<Effect>)
      ensures Dialog(UnsavedChangesTitle) in effects <==> AnyFieldFilled(book.title, book.author, book.isbn)
      ensures Navigate(BooksRoute) in effects <==> !AnyFieldFilled(book.title, book.author, book.isbn) || confirmed
      ensures |effects| <= 2
    {
      if AnyFieldFilled(book.title, book.author, book.isbn) {
        effects := [Dialog(UnsavedChangesTitle)] + (if confirmed then [Navigate(BooksRoute)] else []);
      } else {
        effects := [Navigate(BooksRoute)];
      }
    }
  }

  /** One submission of `draft` end to end: the form, the service's add with
      the server's `reply`, and the callback that reply triggers. The
      duplicate flag ends up raised exactly when a filled-in form met a 409,
      and the form stays submitting exactly when the add went through. */
  method Submit(draft: Draft, reply: Reply<Book>) returns (duplicate: bool, submitting: bool, log: seq<HttpCall>)
    ensures duplicate <==>
      RequiredFieldsFilled(draft.title, draft.author, draft.isbn) && reply.Failed? && reply.error.status == 409
    ensures submitting <==>
      RequiredFieldsFilled(draft.title, draft.author, draft.isbn) && reply.Delivered?
    ensures log == if RequiredFieldsFilled(draft.title, draft.author, draft.isbn) then [Post(draft)] else []
  {
    var service := new BookService();
    var form := new AddBookForm(draft.publicationDate);
    form.book := draft;
    var request, _ := form.SaveBook();
    if request.Some? {
      var result := service.AddBook(request.value, reply);
      if result.Ok? {
        var _ := form.OnSaved();
      } else {
        var _ := form.OnSaveFailed(result.error);
      }
    }
    duplicate, submitting, log := form.duplicateError, form.isSubmitting, service.sent;
  }
}
