/** The client's catalogue service (frontend/src/app/services/book.service.ts):
    HTTP calls to the store, a two-slot read cache wiped by every successful
    write, a local guard on ids, and the mapping of HTTP failures to messages.
    The HTTP client is not modelled: each request is appended to a log and
    its reply is a parameter. Notifications are appended to a log of effects. */
module BookServiceModel {
  import opened Wrappers
  import opened BookModel
  import opened Ui

  const InvalidIdText := "Invalid book ID"
  const DuplicateText := "A book with the same title and author already exists"
  const SwitchConflictText := "Conflict: Book already exists"
  const NetworkText := "Network error: Could not connect to server"
  const BadRequestText := "Bad request: Invalid book data"
  const NotFoundText := "Book not found"
  const ServerErrorText := "Server error: Please try again later"
  const ClientErrorPrefix := "Client error: "
  const UnexpectedPrefix := "Unexpected error: "

  const AddedText := "Book added successfully!"
  const UpdatedText := "Book updated successfully!"
  const DeletedText := "Book deleted successfully!"

  /** The `error` payload of a failed response: nothing, a text body, or a
      client-side `ErrorEvent` carrying its own message. */
  datatype ErrorBody = NoBody | Text(text: string) | ClientEvent(message: string)

  /** A failed HTTP response: status (0 when no response arrived), payload and
      the transport's own description. */
  datatype HttpError = HttpError(status: int, body: ErrorBody, message: string)

  /** How one request ended. */
  datatype Reply<T> = Delivered(value: T) | Failed(error: HttpError)

  /** A request handed to the HTTP client. */
  datatype HttpCall = GetAll | GetOne(id: int) | Post(draft: Draft) | Put(id: int, book: Book) | Delete(id: int)

  /** A cached observable, named by the position in the request log of the
      request whose result it replays. */
  datatype Feed = Feed(request: nat)

  /** What the service's observables fail with: the 409 case of add keeps
      its status; every other failure is a plain `Error` with a message. */
  datatype ServiceError = StatusError(status: int, message: string) | MessageError(message: string)

  /** The message of a duplicate: the server's own text when it sent a
      non-empty one, the fixed duplicate text otherwise. */
  function BodyOrDefault(body: ErrorBody): (text: string)
    ensures |text| > 0
    ensures body.Text? && body.text != "" ==> text == body.text
    ensures !(body.Text? && body.text != "") ==> text == DuplicateText
  {
    if body.Text? && body.text != "" then body.text else DuplicateText
  }

  /** The switch on the status code: five statuses get a fixed text, any
      other one the transport's description behind a fixed prefix. */
  function StatusText(status: int, message: string): (text: string)
    ensures |text| > 0
    ensures status == 0 ==> text == NetworkText
    ensures status == 400 ==> text == BadRequestText
    ensures status == 404 ==> text == NotFoundText
    ensures status == 409 ==> text == SwitchConflictText
    ensures status == 500 ==> text == ServerErrorText
    ensures status !in {0, 400, 404, 409, 500} ==>
      |text| >= |UnexpectedPrefix| && text[..|UnexpectedPrefix|] == UnexpectedPrefix && text[|UnexpectedPrefix|..] == message
  {
    if status == 0 then NetworkText
    else if status == 400 then BadRequestText
    else if status == 404 then NotFoundText
    else if status == 409 then SwitchConflictText
    else if status == 500 then ServerErrorText
    else UnexpectedPrefix + message
  }

  /** The user-facing message for a failed response: the 409 test first,
      then a client-side event, then the status switch. */
  function ParseErrorMessage(e: HttpError): (msg: string)
    ensures |msg| > 0
    ensures e.status == 409 ==> msg == BodyOrDefault(e.body)
    ensures e.status != 409 && e.body.ClientEvent? ==> msg == ClientErrorPrefix + e.body.message
    ensures e.status == 0 && !e.body.ClientEvent? ==> msg == NetworkText
    ensures e.status == 400 && !e.body.ClientEvent? ==> msg == BadRequestText
    ensures e.status == 404 && !e.body.ClientEvent? ==> msg == NotFoundText
    ensures e.status == 500 && !e.body.ClientEvent? ==> msg == ServerErrorText
    ensures e.status != 409 && !e.body.ClientEvent? && e.status !in {0, 400, 404, 500} ==>
      msg == UnexpectedPrefix + e.message
  {
    if e.status == 409 then BodyOrDefault(e.body)
    else if e.body.ClientEvent? then ClientErrorPrefix + e.body.message
    else StatusText(e.status, e.message)
  }

  /** The switch's 409 arm is dead: its text comes out only when a 409
      response itself carried exactly that text as its body. */
  lemma SwitchConflictArmUnreachable(e: HttpError)
    ensures ParseErrorMessage(e) == SwitchConflictText ==>
      e.status == 409 && e.body == Text(SwitchConflictText)
  {
    var msg := ParseErrorMessage(e);
    if e.status != 409 {
      if e.body.ClientEvent? {
        assert msg[1] != SwitchConflictText[1];
      } else if e.status !in {0, 400, 404, 500} {
        assert msg[0] != SwitchConflictText[0];
      }
    } else if msg == SwitchConflictText {
      assert msg != DuplicateText;
    }
  }

  /** A 409 carrying a non-empty text shows exactly that text, whatever the
      transport's description; one without a non-empty text shows the fixed
      duplicate text. */
  lemma ConflictMessageIsServerText(e: HttpError)
    requires e.status == 409
    ensures e.body.Text? && e.body.text != "" ==> ParseErrorMessage(e) == e.body.text
    ensures !(e.body.Text? && e.body.text != "") ==> ParseErrorMessage(e) == DuplicateText
  {
  }

  /** Distinct fixed statuses give distinct messages. */
  lemma FixedStatusTextsDistinct(a: HttpError, b: HttpError)
    requires a.status in {0, 400, 404, 500} && b.status in {0, 400, 404, 500}
    requires !a.body.ClientEvent? && !b.body.ClientEvent?
    ensures ParseErrorMessage(a) == ParseErrorMessage(b) <==> a.status == b.status
  {
  }

  class BookService {
    /** The whole-list slot (`booksCache$`). */
    var booksCache: Option<Feed>
    /** The per-id map (`bookCache`). */
    var bookCache: map<int, Feed>
    /** Every request handed to the HTTP client, oldest first. */
    var sent: seq<HttpCall>
    /** Every notification shown, oldest first. */
    var shown: seq<Effect>

    /** Each cached entry replays the request that filled it, and only
        positive ids are ever cached. */
    ghost predicate Valid()
      reads this
    {
      && (booksCache.Some? ==>
            booksCache.value.request < |sent| && sent[booksCache.value.request] == GetAll)
      && (forall id :: id in bookCache ==>
            id > 0 && bookCache[id].request < |sent| && sent[bookCache[id].request] == GetOne(id))
    }

    constructor ()
      ensures Valid()
      ensures booksCache == None && bookCache == map[] && sent == [] && shown == []
    {
      booksCache := None;
      bookCache := map[];
      sent := [];
      shown := [];
    }

    /** `getBooks`: fetch only when the list slot is empty. */
    method GetBooks() returns (feed: Feed)
      requires Valid()
      modifies this
      ensures Valid()
      ensures old(booksCache).Some? ==> feed == old(booksCache).value && sent == old(sent)
      ensures old(booksCache).None? ==> feed == Feed(|old(sent)|) && sent == old(sent) + [GetAll]
      ensures booksCache == Some(feed) && sent[feed.request] == GetAll
      ensures bookCache == old(bookCache) && shown == old(shown)
    {
      if booksCache.None? {
        booksCache := Some(Feed(|sent|));
        sent := sent + [GetAll];
      }
      feed := booksCache.value;
    }

    /** `getBook`: reject non-positive ids locally; otherwise fetch only when
        the id has no entry yet. */
    method GetBook(id: int) returns (r: Result<Feed, ServiceError>)
      requires Valid()
      modifies this
      ensures Valid()
      ensures id <= 0 ==> r == Err(MessageError(InvalidIdText)) && bookCache == old(bookCache) && sent == old(sent)
      ensures id > 0 && id in old(bookCache) ==>
        r == Ok(old(bookCache)[id]) && bookCache == old(bookCache) && sent == old(sent)
      ensures id > 0 && id !in old(bookCache) ==>
        && r == Ok(Feed(|old(sent)|))
        && bookCache == old(bookCache)[id := r.value]
        && sent == old(sent) + [GetOne(id)]
      ensures r.Ok? ==> id in bookCache && bookCache[id] == r.value && sent[r.value.request] == GetOne(id)
      ensures booksCache == old(booksCache) && shown == old(shown)
    {
      if id <= 0 {
        return Err(MessageError(InvalidIdText));
      }
      if id !in bookCache {
        bookCache := bookCache[id := Feed(|sent|)];
        sent := sent + [GetOne(id)];
      }
      r := Ok(bookCache[id]);
    }

    /** `clearCache`: empty both slots. */
    method ClearCache()
      requires Valid()
      modifies this
      ensures Valid()
      ensures booksCache == None && bookCache == map[]
      ensures sent == old(sent) && shown == old(shown)
    {
      booksCache := None;
      bookCache := map[];
    }

    /** `handleError`: notify the parsed message and fail with it. */
    method HandleError(e: HttpError) returns (err: ServiceError)
      requires Valid()
      modifies this
      ensures Valid()
      ensures err == MessageError(ParseErrorMessage(e))
      ensures shown == old(shown) + [Snack(Failure, err.message)]
      ensures booksCache == old(booksCache) && bookCache == old(bookCache) && sent == old(sent)
    {
      var message := ParseErrorMessage(e);
      shown := shown + [Snack(Failure, message)];
      err := MessageError(message);
    }

    /** `addBook`: no id guard; a 409 keeps its status and is notified once. */
    method AddBook(draft: Draft, reply: Reply<Book>) returns (r: Result<Book, ServiceError>)
      requires Valid()
      modifies this
      ensures Valid()
      ensures sent == old(sent) + [Post(draft)]
      ensures reply.Delivered? ==>
        && r == Ok(reply.value)
        && booksCache == None && bookCache == map[]
        && shown == old(shown) + [Snack(Success, AddedText)]
      ensures reply.Failed? ==>
        && booksCache == old(booksCache) && bookCache == old(bookCache)
        && r.Err? && shown == old(shown) + [Snack(Failure, r.error.message)]
      ensures reply.Failed? && reply.error.status == 409 ==>
        r == Err(StatusError(409, BodyOrDefault(reply.error.body)))
      ensures reply.Failed? && reply.error.status != 409 ==>
        r == Err(MessageError(ParseErrorMessage(reply.error)))
    {
      sent := sent + [Post(draft)];
      match reply {
        case Delivered(book) =>
          ClearCache();
          shown := shown + [Snack(Success, AddedText)];
          r := Ok(book);
        case Failed(e) =>
          if e.status == 409 {
            var message := BodyOrDefault(e.body);
            shown := shown + [Snack(Failure, message)];
            r := Err(StatusError(e.status, message));
          } else {
            var err := HandleError(e);
            r := Err(err);
          }
      }
    }

    /** `updateBook`: reject non-positive ids locally; otherwise PUT. */
    method UpdateBook(id: int, book: Book, reply: Reply<()>) returns (r: Result<(), ServiceError>)
      requires Valid()
      modifies this
      ensures Valid()
      ensures id <= 0 ==>
        && r == Err(MessageError(InvalidIdText))
        && booksCache == old(booksCache) && bookCache == old(bookCache)
        && sent == old(sent) && shown == old(shown)
      ensures id > 0 ==> sent == old(sent) + [Put(id, book)]
      ensures id > 0 && reply.Delivered? ==>
        && r == Ok(())
        && booksCache == None && bookCache == map[]
        && shown == old(shown) + [Snack(Success, UpdatedText)]
      ensures id > 0 && reply.Failed? ==>
        && r == Err(MessageError(ParseErrorMessage(reply.error)))
        && booksCache == old(booksCache) && bookCache == old(bookCache)
        && shown == old(shown) + [Snack(Failure, r.error.message)]
    {
      if id <= 0 {
        return Err(MessageError(InvalidIdText));
      }
      sent := sent + [Put(id, book)];
      match reply {
        case Delivered(_) =>
          ClearCache();
          shown := shown + [Snack(Success, UpdatedText)];
          r := Ok(());
        case Failed(e) =>
          var err := HandleError(e);
          r := Err(err);
      }
    }

    /** `deleteBook`: reject non-positive ids locally; otherwise DELETE. */
    method DeleteBook(id: int, reply: Reply<()>) returns (r: Result<(), ServiceError>)
      requires Valid()
      modifies this
      ensures Valid()
      ensures id <= 0 ==>
        && r == Err(MessageError(InvalidIdText))
        && booksCache == old(booksCache) && bookCache == old(bookCache)
        && sent == old(sent) && shown == old(shown)
      ensures id > 0 ==> sent == old(sent) + [Delete(id)]
      ensures id > 0 && reply.Delivered? ==>
        && r == Ok(())
        && booksCache == None && bookCache == map[]
        && shown == old(shown) + [Snack(Success, DeletedText)]
      ensures id > 0 && reply.Failed? ==>
        && r == Err(MessageError(ParseErrorMessage(reply.error)))
        && booksCache == old(booksCache) && bookCache == old(bookCache)
        && shown == old(shown) + [Snack(Failure, r.error.message)]
    {
      if id <= 0 {
        return Err(MessageError(InvalidIdText));
      }
      sent := sent + [Delete(id)];
      match reply {
        case Delivered(_) =>
          ClearCache();
          shown := shown + [Snack(Success, DeletedText)];
          r := Ok(());
        case Failed(e) =>
          var err := HandleError(e);
          r := Err(err);
      }
    }
  }

  /** Two list reads before any write share one request; a successful add
      wipes the slot, so the next read issues a new one. */
  method ListCachedUntilWrite(draft: Draft, created: Book)
    returns (first: Feed, second: Feed, third: Feed, log: seq<HttpCall>)
    ensures first == second && third != first
    ensures log == [GetAll, Post(draft), GetAll]
  {
    var service := new BookService();
    first := service.GetBooks();
    second := service.GetBooks();
    var _ := service.AddBook(draft, Delivered(created));
    third := service.GetBooks();
    log := service.sent;
  }

  /** A failed add leaves both slots as they were: the next list read is
      still served from the cache. */
  method FailedWriteKeepsCache(draft: Draft, e: HttpError)
    returns (first: Feed, second: Feed, log: seq<HttpCall>)
    ensures first == second
    ensures log == [GetAll, Post(draft)]
  {
    var service := new BookService();
    first := service.GetBooks();
    var _ := service.AddBook(draft, Failed(e));
    second := service.GetBooks();
    log := service.sent;
  }
}
