/** BookController: the CRUD actions on books, which keep the `authors`
    summaries of a book and the `books` summaries of its authors in step.

    Every action takes the store and the decoded request body. `saveOk` is
    the outcome of the book's own `save()`, `newId` the `_id` the store
    gives a created book, and `parses` the framework's date parser. */
module BookController {
  import opened Common
  import opened Records
  import opened Links
  import opened Validation
  import opened DocumentStore
  import opened Http
  import BookModel
  import AuthorModel

  // ---------------------------------------------------------------------------
  // Reading actions
  // ---------------------------------------------------------------------------

  /** `actionIndex`: the ACTIVE books. */
  function Index(books: map<Id, Book>): (r: Response)
    ensures r.Reply? && r.code == 200 && r.status == "ok" && r.message == Text("Libros encontrados")
    ensures r.payload.Books? && r.payload.books == BookModel.GetBooks(books)
  {
    Reply(200, "ok", Text("Libros encontrados"), Books(BookModel.GetBooks(books)))
  }

  /** `actionView`: a falsy `_id` is refused before any lookup; otherwise the
      ACTIVE book with that `_id`, or not found. */
  function View(books: map<Id, Book>, body: Body): (r: Response)
    ensures !Truthy(body.id) ==> r == NotFound("Se debe mandar el campo '_id'")
    ensures Truthy(body.id) && BookModel.GetBookById(books, body.id.value).None?
            ==> r == NotFound("No se encontró el libro referenciado")
    ensures r.Reply? && r.code == 200 <==>
            Truthy(body.id) && body.id.value in books && books[body.id.value].state == Active
    ensures r.Reply? && r.code == 200 ==>
            r == Reply(200, "ok", Text("Libro encontrado"), BookRecord(books[body.id.value]))
  {
    if !Truthy(body.id) then NotFound("Se debe mandar el campo '_id'")
    else match BookModel.GetBookById(books, body.id.value)
      case None => NotFound("No se encontró el libro referenciado")
      case Some(b) => Reply(200, "ok", Text("Libro encontrado"), BookRecord(b))
  }

  // ---------------------------------------------------------------------------
  // Resolution of the submitted author ids
  // ---------------------------------------------------------------------------

  /** The `authors` loop of create and update: each submitted id that names
      an ACTIVE author contributes that author without its `books`. */
  method ResolveAuthors(authors: map<Id, Author>, ids: seq<Id>) returns (r: seq<AuthorSummary>)
    ensures r == Resolve(authors, ids, IsActiveAuthor, StripBooks)
  {
    r := [];
    var i := 0;
    while i < |ids|
      invariant 0 <= i <= |ids|
      invariant r == Resolve(authors, ids[..i], IsActiveAuthor, StripBooks)
    {
      assert ids[..i + 1][..i] == ids[..i];
      var found := AuthorModel.GetAuthorById(authors, ids[i]);
      if found.Some? {
        r := r + [StripBooks(found.value)];
      }
      i := i + 1;
    }
    assert ids[..|ids|] == ids;
  }

  /** The `authors` a created book gets: the resolved ids when an array was
      submitted, and the empty list otherwise. */
  function SubmittedAuthors(authors: map<Id, Author>, fields: map<string, Value>): seq<AuthorSummary> {
    var v := Lookup(fields, "authors");
    if v.List? then Resolve(authors, v.items, IsActiveAuthor, StripBooks) else []
  }

  /** The book `actionCreate` saves. */
  function NewBook(authors: map<Id, Author>, id: Id, fields: map<string, Value>): Book {
    Book(id, Lookup(fields, "title"), Lookup(fields, "publicationYear"), Lookup(fields, "description"),
         SubmittedAuthors(authors, fields), Active)
  }

  /** The embedded authors of a created book are, in submitted order, exactly
      the submitted ids that name an ACTIVE author, each summary being that
      author without its `books`; a non-array or absent `authors` gives none. */
  lemma {:induction false} NewBookAuthors(authors: map<Id, Author>, id: Id, fields: map<string, Value>)
    requires forall k :: k in authors ==> authors[k].id == k
    ensures var b := NewBook(authors, id, fields);
      var v := Lookup(fields, "authors");
      && b.state == Active
      && IdsOf(b.authors, AuthorSummaryId) == (if v.List? then LiveIds(authors, v.items, IsActiveAuthor) else [])
      && forall j :: 0 <= j < |b.authors| ==>
           var s := b.authors[j];
           s.id in authors && authors[s.id].state == Active && s == StripBooks(authors[s.id])
  {
    var v := Lookup(fields, "authors");
    if v.List? {
      ResolveIds(authors, v.items, IsActiveAuthor, StripBooks, AuthorSummaryId);
      ResolveFromStore(authors, v.items, IsActiveAuthor, StripBooks, AuthorSummaryId);
    }
  }

  /** The book `actionUpdate` saves: title, publicationYear and description
      overwritten, `authors` replaced only when an array was submitted. */
  function UpdatedBook(authors: map<Id, Author>, b: Book, fields: map<string, Value>): Book {
    var v := Lookup(fields, "authors");
    b.(title := Lookup(fields, "title"),
       publicationYear := Lookup(fields, "publicationYear"),
       description := Lookup(fields, "description"),
       authors := if v.List? then Resolve(authors, v.items, IsActiveAuthor, StripBooks) else b.authors)
  }

  /** An update keeps the book's id and state. A submitted array yields the
      summaries of the ACTIVE authors it names, in its order; anything else
      leaves the previous `authors` as they were. */
  lemma {:induction false} UpdatedBookAuthors(authors: map<Id, Author>, b: Book, fields: map<string, Value>)
    requires forall k :: k in authors ==> authors[k].id == k
    ensures var u := UpdatedBook(authors, b, fields);
      var v := Lookup(fields, "authors");
      && u.id == b.id && u.state == b.state
      && u.title == Lookup(fields, "title")
      && u.publicationYear == Lookup(fields, "publicationYear")
      && u.description == Lookup(fields, "description")
      && (!v.List? ==> u.authors == b.authors)
      && (v.List? ==> IdsOf(u.authors, AuthorSummaryId) == LiveIds(authors, v.items, IsActiveAuthor))
      && (v.List? ==> forall j :: 0 <= j < |u.authors| ==>
           var s := u.authors[j];
           s.id in authors && authors[s.id].state == Active && s == StripBooks(authors[s.id]))
  {
    var v := Lookup(fields, "authors");
    if v.List? {
      ResolveIds(authors, v.items, IsActiveAuthor, StripBooks, AuthorSummaryId);
      ResolveFromStore(authors, v.items, IsActiveAuthor, StripBooks, AuthorSummaryId);
    }
  }

  // ---------------------------------------------------------------------------
  // Cleanup of the authors after a delete
  // ---------------------------------------------------------------------------

  /** The `elemMatch` query of `actionDelete`: ACTIVE authors whose `books`
      cite the deleted book. */
  predicate ToClear(a: Author, id: Id) {
    IsActiveAuthor(a) && Cites(a.books, id, BookSummaryId)
  }

  /** One author after the cleanup: its `books` filtered when the query returns it. */
  function Cleaned(r: Author, id: Id): Author {
    if ToClear(r, id) then r.(books := Without(r.books, id, BookSummaryId)) else r
  }

  /** The `authors` collection after the cleanup of `actionDelete`. */
  function AfterBookDelete(authors: map<Id, Author>, id: Id): map<Id, Author> {
    map k | k in authors :: Cleaned(authors[k], id)
  }

  /** After the cleanup no ACTIVE author cites the deleted book. Every other
      author is untouched, and so is everything but the `books` of an author
      that was cleaned, whose remaining summaries keep their order. */
  lemma {:induction false} AfterBookDeleteSpec(authors: map<Id, Author>, id: Id)
    ensures var after := AfterBookDelete(authors, id);
      && after.Keys == authors.Keys
      && (forall k :: k in after && after[k].state == Active ==> !Cites(after[k].books, id, BookSummaryId))
      && (forall k :: k in after && authors[k].state != Active ==> after[k] == authors[k])
      && (forall k :: k in after ==> after[k] == authors[k].(books := after[k].books))
      && (forall k :: k in after && authors[k].state == Active ==> after[k].books == Without(authors[k].books, id, BookSummaryId))
  {
    var after := AfterBookDelete(authors, id);
    forall k | k in after && authors[k].state == Active
      ensures after[k].books == Without(authors[k].books, id, BookSummaryId)
    {
      if !Cites(authors[k].books, id, BookSummaryId) {
        WithoutNoop(authors[k].books, id, BookSummaryId);
      }
    }
    forall k | k in after && after[k].state == Active
      ensures !Cites(after[k].books, id, BookSummaryId)
    {
      WithoutClears(authors[k].books, id, BookSummaryId);
    }
  }

  /** The fan-out loop: every author the query returns gets its `books`
      filtered and is saved. */
  method CleanAuthors(authors: map<Id, Author>, id: Id) returns (after: map<Id, Author>)
    ensures after == AfterBookDelete(authors, id)
  {
    after := authors;
    var pending := set k | k in authors && ToClear(authors[k], id);
    while pending != {}
      invariant after.Keys == authors.Keys
      invariant pending <= authors.Keys
      invariant forall k :: k in pending ==> ToClear(authors[k], id)
      invariant forall k :: k in after ==>
        after[k] == if k in pending then authors[k] else Cleaned(authors[k], id)
      decreases pending
    {
      var k :| k in pending;
      var kept := FilterOut(after[k].books, id, BookSummaryId);
      after := after[k := after[k].(books := kept)];
      pending := pending - {k};
    }
  }

  /** The cleanup applied to the store: only the `authors` collection changes. */
  method ClearAuthors(db: Store, id: Id)
    requires db.Valid()
    modifies db
    ensures db.Valid()
    ensures db.authors == AfterBookDelete(old(db.authors), id)
    ensures db.books == old(db.books) && db.users == old(db.users)
  {
    var after := CleanAuthors(db.authors, id);
    db.authors := after;
  }

  // ---------------------------------------------------------------------------
  // Writing actions
  // ---------------------------------------------------------------------------

  /** `actionCreate`. The Book constructor raises, uncaught, on a
      body key outside `attributes()`. */
  method Create(db: Store, verb: Verb, body: Body, newId: Id, saveOk: bool, parses: DateParser) returns (r: Response)
    requires db.Valid() && newId !in db.books
    modifies db
    ensures db.Valid()
    ensures verb != Post ==> r == NotAllowed && unchanged(db)
    ensures verb == Post && !BookModel.Assignable(body.fields) ==> r == UnknownProperty && unchanged(db)
    ensures verb == Post && BookModel.Assignable(body.fields) && BookModel.FirstError(body.fields, parses).Some? ==>
      r == Reply(404, "error", BookModel.FirstError(body.fields, parses).value, Nothing) && unchanged(db)
    ensures verb == Post && BookModel.Assignable(body.fields) && BookModel.FirstError(body.fields, parses).None? && !saveOk ==>
      r == Reply(400, "error", Text("No se creó el Libro"), SaveErrors) && unchanged(db)
    ensures verb == Post && BookModel.Assignable(body.fields) && BookModel.FirstError(body.fields, parses).None? && saveOk ==>
      var b := NewBook(old(db.authors), newId, body.fields);
      && r == Reply(201, "ok", Text("Libro agregado con éxito"), BookRecord(b))
      && db.books == old(db.books)[newId := b]
      && db.authors == old(db.authors) && db.users == old(db.users)
  {
    if verb != Post {
      return NotAllowed;
    }
    if !BookModel.Assignable(body.fields) {
      return UnknownProperty;
    }
    var blocking := ScanErrors(Validate(BookModel.Rules, body.fields, parses));
    BookModel.RulesFirstError(body.fields, parses);
    if blocking.Some? {
      return Reply(404, "error", blocking.value, Nothing);
    }
    var authors: seq<AuthorSummary> := [];
    var submitted := Field(body, "authors");
    if submitted.List? {
      authors := ResolveAuthors(db.authors, submitted.items);
    }
    var b := Book(newId, Field(body, "title"), Field(body, "publicationYear"), Field(body, "description"), authors, Active);
    if !saveOk {
      return Reply(400, "error", Text("No se creó el Libro"), SaveErrors);
    }
    db.books := db.books[newId := b];
    return Reply(201, "ok", Text("Libro agregado con éxito"), BookRecord(b));
  }

  /** `actionUpdate`. Only PUT is accepted here, so a PATCH request, which the
      verb filter lets through, is answered 405. */
  method Update(db: Store, verb: Verb, body: Body, saveOk: bool, parses: DateParser) returns (r: Response)
    requires db.Valid()
    modifies db
    ensures db.Valid()
    ensures verb != Put ==> r == NotAllowed && unchanged(db)
    ensures verb == Put && !Truthy(body.id) ==>
      r == NotFound("Se debe enviar el '_id' del libro") && unchanged(db)
    ensures verb == Put && Truthy(body.id) && !BookModel.Assignable(body.fields) ==>
      r == UnknownProperty && unchanged(db)
    ensures verb == Put && Truthy(body.id) && BookModel.Assignable(body.fields) && BookModel.FirstError(body.fields, parses).Some? ==>
      r == Reply(404, "errors", BookModel.FirstError(body.fields, parses).value, Nothing) && unchanged(db)
    ensures verb == Put && Truthy(body.id) && BookModel.Assignable(body.fields) && BookModel.FirstError(body.fields, parses).None?
            && BookModel.GetBookById(old(db.books), body.id.value).None? ==>
      r == NotFound("No se encontró el libro referenciado") && unchanged(db)
    ensures verb == Put && Truthy(body.id) && BookModel.Assignable(body.fields) && BookModel.FirstError(body.fields, parses).None?
            && BookModel.GetBookById(old(db.books), body.id.value).Some? ==>
      var id := body.id.value;
      var u := UpdatedBook(old(db.authors), old(db.books)[id], body.fields);
      if saveOk then
        && r == Reply(200, "ok", Text("Libro editado con éxito"), BookRecord(u))
        && db.books == old(db.books)[id := u]
        && db.authors == old(db.authors) && db.users == old(db.users)
      else
        r == Reply(400, "error", Text("No se editó el libro"), SaveErrors) && unchanged(db)
  {
    if verb != Put {
      return NotAllowed;
    }
    if !Truthy(body.id) {
      return NotFound("Se debe enviar el '_id' del libro");
    }
    if !BookModel.Assignable(body.fields) {
      return UnknownProperty;
    }
    var blocking := ScanErrors(Validate(BookModel.Rules, body.fields, parses));
    BookModel.RulesFirstError(body.fields, parses);
    if blocking.Some? {
      return Reply(404, "errors", blocking.value, Nothing);
    }
    var found := BookModel.GetBookById(db.books, body.id.value);
    if found.None? {
      return NotFound("No se encontró el libro referenciado");
    }
    var b := found.value;
    b := b.(title := Field(body, "title"), publicationYear := Field(body, "publicationYear"),
             description := Field(body, "description"));
    var submitted := Field(body, "authors");
    if submitted.List? {
      var authors := ResolveAuthors(db.authors, submitted.items);
      b := b.(authors := authors);
    }
    if !saveOk {
      return Reply(400, "error", Text("No se editó el libro"), SaveErrors);
    }
    db.books := db.books[body.id.value := b];
    return Reply(200, "ok", Text("Libro editado con éxito"), BookRecord(b));
  }

  /** `actionDelete`: a soft delete followed by the cleanup of the ACTIVE
      authors that cite the book. */
  method Delete(db: Store, verb: Verb, body: Body, saveOk: bool) returns (r: Response)
    requires db.Valid()
    modifies db
    ensures db.Valid()
    ensures !verb.Delete? ==> r == NotAllowed && unchanged(db)
    ensures verb.Delete? && !Truthy(body.id) ==>
      r == NotFound("Se debe enviar el '_id' del libro") && unchanged(db)
    ensures verb.Delete? && Truthy(body.id) && BookModel.GetBookById(old(db.books), body.id.value).None? ==>
      r == NotFound("No se encontró el libro referenciado") && unchanged(db)
    ensures verb.Delete? && Truthy(body.id) && BookModel.GetBookById(old(db.books), body.id.value).Some? ==>
      var id := body.id.value;
      if saveOk then
        && r == Reply(200, "ok", Text("Libro eliminado correctamente"), Done)
        && db.books == old(db.books)[id := old(db.books)[id].(state := Deleted)]
        && db.authors == AfterBookDelete(old(db.authors), id)
        && db.users == old(db.users)
      else
        r == Reply(400, "error", Text("No se eliminó el libro"), Nothing) && unchanged(db)
  {
    if !verb.Delete? {
      return NotAllowed;
    }
    if !Truthy(body.id) {
      return NotFound("Se debe enviar el '_id' del libro");
    }
    var id := body.id.value;
    var found := BookModel.GetBookById(db.books, id);
    if found.None? {
      return NotFound("No se encontró el libro referenciado");
    }
    if !saveOk {
      return Reply(400, "error", Text("No se eliminó el libro"), Nothing);
    }
    db.books := db.books[id := found.value.(state := Deleted)];
    ClearAuthors(db, id);
    return Reply(200, "ok", Text("Libro eliminado correctamente"), Done);
  }

  // ---------------------------------------------------------------------------
  // Properties across actions
  // ---------------------------------------------------------------------------

  /** Viewing a book just created returns it, provided its `_id` is truthy. */
  lemma ViewAfterCreate(authors: map<Id, Author>, books: map<Id, Book>, newId: Id, fields: map<string, Value>, query: map<string, Value>)
    requires Truthy(Some(newId))
    ensures var b := NewBook(authors, newId, fields);
      View(books[newId := b], Body(Some(newId), query)) == Reply(200, "ok", Text("Libro encontrado"), BookRecord(b))
  {
  }

  /** The listing after a create shows every book listed before and the new
      one under its `_id`. */
  lemma IndexAfterCreate(authors: map<Id, Author>, books: map<Id, Book>, newId: Id, fields: map<string, Value>)
    ensures var b := NewBook(authors, newId, fields);
      Index(books[newId := b]).payload == Books(BookModel.GetBooks(books)[newId := b])
  {
  }

  /** After a delete, viewing the book finds nothing, and so does a second
      delete (its lookup is the same GetBookById). */
  lemma GoneAfterDelete(books: map<Id, Book>, id: Id, query: map<string, Value>)
    requires id in books && Truthy(Some(id))
    ensures var after := books[id := books[id].(state := Deleted)];
      && BookModel.GetBookById(after, id).None?
      && View(after, Body(Some(id), query)) == NotFound("No se encontró el libro referenciado")
      && id !in BookModel.GetBooks(after)
      && BookModel.GetBooks(after) == BookModel.GetBooks(books) - {id}
  {
  }
}
