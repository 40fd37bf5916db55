/** What the views and the service do to the outside world, recorded rather
    than performed, and the field-presence rules the forms share. */
module Ui {

  datatype Tone = Success | Failure

  /** A snackbar notification, a router navigation, or a confirmation dialog opened. */
  datatype Effect =
    | Snack(tone: Tone, text: string)
    | Navigate(route: string)
    | Dialog(title: string)

  const BooksRoute := "/books"

  const UnsavedChangesTitle := "Unsaved Changes"

  const FillRequiredText := "Please fill all required fields correctly"

  /** The forms' `isFormValid`: title, author and isbn are all non-empty
      (a string is truthy exactly when it is non-empty); the date is not checked. */
  predicate RequiredFieldsFilled(title: string, author: string, isbn: string)
    ensures RequiredFieldsFilled(title, author, isbn) ==> AnyFieldFilled(title, author, isbn)
  {
    title != "" && author != "" && isbn != ""
  }

  /** The add form's unsaved-data test: at least one of the three text fields is non-empty. */
  predicate AnyFieldFilled(title: string, author: string, isbn: string)
    ensures AnyFieldFilled(title, author, isbn) <==> |title| + |author| + |isbn| > 0
  {
    title != "" || author != "" || isbn != ""
  }
}
