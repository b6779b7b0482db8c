/** What an action answers: the HTTP status code, the `status` string and
    the `message` of the JSON envelope, and what its `response` field holds;
    an Unauthorized error raised with its reason; or an exception no action
    catches, which the framework's error handler turns into a 500 page. */
module Http {
  import opened Common
  import opened Records

  datatype Payload =
    | Nothing                       // null
    | EmptyList                     // []
    | Done                          // true
    | SaveErrors                    // the model's save errors, left abstract
    | TokenValue(token: string)
    | BookRecord(book: Book)
    | AuthorRecord(author: Author)
    | Books(books: map<Id, Book>)
    | Authors(authors: map<Id, Author>)

  datatype Response =
    | Reply(code: int, status: string, message: Message, payload: Payload)
    | Unauthorized(reason: string)
    | ServerError(exception: string)

  /** What a model constructor raises when the body has a key that is not
      one of the model's attributes. */
  const UnknownProperty := ServerError("UnknownPropertyException")

  /** The answer of every mutating action to a request with the wrong verb. */
  const NotAllowed := Reply(405, "error", Text("Método no permitido"), EmptyList)

  /** The 404 answer that carries a fixed message and no data. */
  function NotFound(message: string): Response {
    Reply(404, "error", Text(message), Nothing)
  }
}
