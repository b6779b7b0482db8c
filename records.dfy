/** The documents of the three collections and the summaries one collection
    embeds of the other. */
module Records {
  import opened Common

  /** The soft-delete flag (STATE_ACTIVO / STATE_DELETE). */
  datatype State = Active | Deleted

  /** A copy of an Author with its `books` field removed, as embedded in a Book. */
  datatype AuthorSummary = AuthorSummary(id: Id, fullname: Value, birthdate: Value, state: State)

  /** A copy of a Book with its `authors` field removed, as embedded in an Author. */
  datatype BookSummary = BookSummary(id: Id, title: Value, publicationYear: Value, description: Value, state: State)

  datatype Author = Author(id: Id, fullname: Value, birthdate: Value, books: seq<BookSummary>, state: State)

  datatype Book = Book(id: Id, title: Value, publicationYear: Value, description: Value, authors: seq<AuthorSummary>, state: State)

  /** A user document; `authKey` and `authKeyExpiration` are null until the first login. */
  datatype User = User(id: Id, username: string, passwordHash: string, authKey: Option<string>, authKeyExpiration: Option<int>)

  predicate IsActiveAuthor(a: Author) { a.state == Active }

  predicate IsActiveBook(b: Book) { b.state == Active }

  /** `unset($author['books'])` followed by `toArray()`. */
  function StripBooks(a: Author): AuthorSummary {
    AuthorSummary(a.id, a.fullname, a.birthdate, a.state)
  }

  /** `unset($book['authors'])` followed by `toArray()`. */
  function StripAuthors(b: Book): BookSummary {
    BookSummary(b.id, b.title, b.publicationYear, b.description, b.state)
  }

  function AuthorSummaryId(s: AuthorSummary): Id { s.id }

  function BookSummaryId(s: BookSummary): Id { s.id }
}
