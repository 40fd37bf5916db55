/** The Book entity, shared by the catalogue store and the client, and the
    store's one integrity rule: no two books with the same title and author
    once both are lower-cased. */
module BookModel {

  /** A publication date; time of day is always zero, so only the calendar triple is kept. */
  datatype Date = Date(year: int, month: int, day: int)

  /** A book as submitted for creation: every field but the server-assigned id. */
  datatype Draft = Draft(title: string, author: string, isbn: string, publicationDate: Date)

  datatype Book = Book(id: int, title: string, author: string, isbn: string, publicationDate: Date)

  /** The record the store keeps for `d` once it has been given `id`. */
  function WithId(d: Draft, id: int): Book
  {
    Book(id, d.title, d.author, d.isbn, d.publicationDate)
  }

  /** The Books table: primary key to row. */
  type Table = map<int, Book>

  /** Every row is stored under its own id. */
  ghost predicate WellKeyed(t: Table)
  {
    forall id :: id in t ==> t[id].id == id
  }

  /** Lower-casing of one character. `ToLower` runs in the database and depends
      on its collation; the model folds the ASCII letters A-Z only. */
  function LowerChar(c: char): (r: char)
    ensures 'A' <= c <= 'Z' ==> 'a' <= r <= 'z' && r as int - c as int == 32
    ensures !('A' <= c <= 'Z') ==> r == c
  {
    if 'A' <= c <= 'Z' then (c as int + 32) as char else c
  }

  /** Lower-casing of a string: same length, no upper-case ASCII letter
      left, each one replaced by its lower-case letter (32 code points up),
      and every other character kept where it was. */
  function Lower(s: string): (r: string)
    ensures |r| == |s|
    ensures forall i :: 0 <= i < |r| ==> !('A' <= r[i] <= 'Z')
    ensures forall i :: 0 <= i < |s| && 'A' <= s[i] <= 'Z' ==> r[i] as int == s[i] as int + 32
    ensures forall i :: 0 <= i < |s| && !('A' <= s[i] <= 'Z') ==> r[i] == s[i]
  {
    seq(|s|, i requires 0 <= i < |s| => LowerChar(s[i]))
  }

  /** Lower-casing twice is lower-casing once. */
  lemma LowerIdempotent(s: string)
    ensures Lower(Lower(s)) == Lower(s)
  {
  }

  /** The duplicate test of the create endpoint. */
  predicate SameTitleAndAuthor(a: Book, title: string, author: string)
  {
    Lower(a.title) == Lower(title) && Lower(a.author) == Lower(author)
  }

  /** The catalogue invariant: no two distinct rows share their lower-cased
      (title, author) pair. */
  ghost predicate Unique(t: Table)
  {
    forall i, j :: i in t && j in t && i != j ==> !SameTitleAndAuthor(t[i], t[j].title, t[j].author)
  }
}
