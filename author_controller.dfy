/** AuthorController: the CRUD actions on authors, which keep the `books`
    summaries of an author and the `authors` summaries of those books in
    step. The parameters are those of BookController. */
module AuthorController {
  import opened Common
  import opened Records
  import opened Links
  import opened Validation
  import opened DocumentStore
  import opened Http
  import BookModel
  import AuthorModel

  // ---------------------------------------------------------------------------
  // Reading actions
  // ---------------------------------------------------------------------------

  /** `actionIndex`: the ACTIVE authors. */
  function Index(authors: map<Id, Author>): (r: Response)
    ensures r.Reply? && r.code == 200 && r.status == "ok" && r.message == Text("Autores encontrados")
    ensures r.payload.Authors? && r.payload.authors == AuthorModel.GetAuthors(authors)
  {
    Reply(200, "ok", Text("Autores encontrados"), Authors(AuthorModel.GetAuthors(authors)))
  }

  /** `actionView`: a falsy `_id` is refused before any lookup; otherwise the
      ACTIVE author with that `_id`, or not found. */
  function View(authors: map<Id, Author>, body: Body): (r: Response)
    ensures !Truthy(body.id) ==> r == NotFound("Se debe mandar el campo '_id'")
    ensures Truthy(body.id) && AuthorModel.GetAuthorById(authors, body.id.value).None?
            ==> r == NotFound("No se encontró el autor referenciado")
    ensures r.Reply? && r.code == 200 <==>
            Truthy(body.id) && body.id.value in authors && authors[body.id.value].state == Active
    ensures r.Reply? && r.code == 200 ==>
            r == Reply(200, "ok", Text("Autor encontrado"), AuthorRecord(authors[body.id.value]))
  {
    if !Truthy(body.id) then NotFound("Se debe mandar el campo '_id'")
    else match AuthorModel.GetAuthorById(authors, body.id.value)
      case None => NotFound("No se encontró el autor referenciado")
      case Some(a) => Reply(200, "ok", Text("Autor encontrado"), AuthorRecord(a))
  }

  // ---------------------------------------------------------------------------
  // Resolution of the submitted book ids
  // ---------------------------------------------------------------------------

  /** The `books` loop of create and update: each submitted id that names an
      ACTIVE book contributes that book without its `authors`. */
  method ResolveBooks(books: map<Id, Book>, ids: seq<Id>) returns (r: seq<BookSummary>)
    ensures r == Resolve(books, ids, IsActiveBook, StripAuthors)
  {
    r := [];
    var i := 0;
    while i < |ids|
      invariant 0 <= i <= |ids|
      invariant r == Resolve(books, ids[..i], IsActiveBook, StripAuthors)
    {
      assert ids[..i + 1][..i] == ids[..i];
      var found := BookModel.GetBookById(books, ids[i]);
      if found.Some? {
        r := r + [StripAuthors(found.value)];
      }
      i := i + 1;
    }
    assert ids[..|ids|] == ids;
  }

  /** The `books` a created author gets: the resolved ids when an array was
      submitted, and the empty list otherwise. */
  function SubmittedBooks(books: map<Id, Book>, fields: map<string, Value>): seq<BookSummary> {
    var v := Lookup(fields, "books");
    if v.List? then Resolve(books, v.items, IsActiveBook, StripAuthors) else []
  }

  /** The author `actionCreate` saves. */
  function NewAuthor(books: map<Id, Book>, id: Id, fields: map<string, Value>): Author {
    Author(id, Lookup(fields, "fullname"), Lookup(fields, "birthdate"), SubmittedBooks(books, fields), Active)
  }

  /** The embedded books of a created author are, in submitted order, exactly
      the submitted ids that name an ACTIVE book, each summary being that
      book without its `authors`; a non-array or absent `books` gives none. */
  lemma {:induction false} NewAuthorBooks(books: map<Id, Book>, id: Id, fields: map<string, Value>)
    requires forall k :: k in books ==> books[k].id == k
    ensures var a := NewAuthor(books, id, fields);
      var v := Lookup(fields, "books");
      && a.state == Active
      && IdsOf(a.books, BookSummaryId) == (if v.List? then LiveIds(books, v.items, IsActiveBook) else [])
      && forall j :: 0 <= j < |a.books| ==>
           var s := a.books[j];
           s.id in books && books[s.id].state == Active && s == StripAuthors(books[s.id])
  {
    var v := Lookup(fields, "books");
    if v.List? {
      ResolveIds(books, v.items, IsActiveBook, StripAuthors, BookSummaryId);
      ResolveFromStore(books, v.items, IsActiveBook, StripAuthors, BookSummaryId);
    }
  }

  /** The author `actionUpdate` saves: fullname and birthdate overwritten,
      `books` replaced only when an array was submitted. */
  function UpdatedAuthor(books: map<Id, Book>, a: Author, fields: map<string, Value>): Author {
    var v := Lookup(fields, "books");
    a.(fullname := Lookup(fields, "fullname"),
       birthdate := Lookup(fields, "birthdate"),
       books := if v.List? then Resolve(books, v.items, IsActiveBook, StripAuthors) else a.books)
  }

  /** An update keeps the author's id and state, also for a DELETED author,
      which the update's lookup still finds. A submitted array yields the
      summaries of the ACTIVE books it names, in its order; anything else
      leaves the previous `books` as they were. */
  lemma {:induction false} UpdatedAuthorBooks(books: map<Id, Book>, a: Author, fields: map<string, Value>)
    requires forall k :: k in books ==> books[k].id == k
    ensures var u := UpdatedAuthor(books, a, fields);
      var v := Lookup(fields, "books");
      && u.id == a.id && u.state == a.state
      && u.fullname == Lookup(fields, "fullname")
      && u.birthdate == Lookup(fields, "birthdate")
      && (!v.List? ==> u.books == a.books)
      && (v.List? ==> IdsOf(u.books, BookSummaryId) == LiveIds(books, v.items, IsActiveBook))
      && (v.List? ==> forall j :: 0 <= j < |u.books| ==>
           var s := u.books[j];
           s.id in books && books[s.id].state == Active && s == StripAuthors(books[s.id]))
  {
    var v := Lookup(fields, "books");
    if v.List? {
      ResolveIds(books, v.items, IsActiveBook, StripAuthors, BookSummaryId);
      ResolveFromStore(books, v.items, IsActiveBook, StripAuthors, BookSummaryId);
    }
  }

  // ---------------------------------------------------------------------------
  // Cleanup of the books after a delete
  // ---------------------------------------------------------------------------

  /** The `elemMatch` query of `actionDelete`: books of any state whose
      `authors` cite the deleted author. */
  predicate ToClear(b: Book, id: Id) {
    Cites(b.authors, id, AuthorSummaryId)
  }

  /** One book after the cleanup: its `authors` filtered when the query returns it. */
  function Cleaned(r: Book, id: Id): Book {
    if ToClear(r, id) then r.(authors := Without(r.authors, id, AuthorSummaryId)) else r
  }

  /** The `books` collection after the cleanup of `actionDelete`. */
  function AfterAuthorDelete(books: map<Id, Book>, id: Id): map<Id, Book> {
    map k | k in books :: Cleaned(books[k], id)
  }

  /** After the cleanup no book, ACTIVE or DELETED, cites the deleted author;
      every book loses exactly the summaries of that author, the others
      keeping their order, and nothing else of it changes. */
  lemma {:induction false} AfterAuthorDeleteSpec(books: map<Id, Book>, id: Id)
    ensures var after := AfterAuthorDelete(books, id);
      && after.Keys == books.Keys
      && (forall k :: k in after ==> !Cites(after[k].authors, id, AuthorSummaryId))
      && (forall k :: k in after ==> after[k] == books[k].(authors := after[k].authors))
      && (forall k :: k in after ==> after[k].authors == Without(books[k].authors, id, AuthorSummaryId))
  {
    var after := AfterAuthorDelete(books, id);
    forall k | k in after
      ensures after[k].authors == Without(books[k].authors, id, AuthorSummaryId)
    {
      if !Cites(books[k].authors, id, AuthorSummaryId) {
        WithoutNoop(books[k].authors, id, AuthorSummaryId);
      }
    }
    forall k | k in after
      ensures !Cites(after[k].authors, id, AuthorSummaryId)
    {
      WithoutClears(books[k].authors, id, AuthorSummaryId);
    }
  }

  /** The fan-out loop: every book the query returns gets its `authors`
      filtered and is saved. */
  method CleanBooks(books: map<Id, Book>, id: Id) returns (after: map<Id, Book>)
    ensures after == AfterAuthorDelete(books, id)
  {
    after := books;
    var pending := set k | k in books && ToClear(books[k], id);
    while pending != {}
      invariant after.Keys == books.Keys
      invariant pending <= books.Keys
      invariant forall k :: k in pending ==> ToClear(books[k], id)
      invariant forall k :: k in after ==>
        after[k] == if k in pending then books[k] else Cleaned(books[k], id)
      decreases pending
    {
      var k :| k in pending;
      var kept := FilterOut(after[k].authors, id, AuthorSummaryId);
      after := after[k := after[k].(authors := kept)];
      pending := pending - {k};
    }
  }

  /** The cleanup applied to the store: only the `books` collection changes. */
  method ClearBooks(db: Store, id: Id)
    requires db.Valid()
    modifies db
    ensures db.Valid()
    ensures db.books == AfterAuthorDelete(old(db.books), id)
    ensures db.authors == old(db.authors) && db.users == old(db.users)
  {
    var after := CleanBooks(db.books, id);
    db.books := after;
  }

  // ---------------------------------------------------------------------------
  // Writing actions
  // ---------------------------------------------------------------------------

  /** `actionCreate`. */
  method Create(db: Store, verb: Verb, body: Body, newId: Id, saveOk: bool, parses: DateParser) returns (r: Response)
    requires db.Valid() && newId !in db.authors
    modifies db
    ensures db.Valid()
    ensures verb != Post ==> r == NotAllowed && unchanged(db)
    ensures verb == Post && !AuthorModel.Assignable(body.fields) ==> r == UnknownProperty && unchanged(db)
    ensures verb == Post && AuthorModel.Assignable(body.fields) && AuthorModel.FirstError(body.fields, parses).Some? ==>
      r == Reply(404, "error", AuthorModel.FirstError(body.fields, parses).value, Nothing) && unchanged(db)
    ensures verb == Post && AuthorModel.Assignable(body.fields) && AuthorModel.FirstError(body.fields, parses).None? && !saveOk ==>
      r == Reply(400, "error", Text("No se creó el Autor"), SaveErrors) && unchanged(db)
    ensures verb == Post && AuthorModel.Assignable(body.fields) && AuthorModel.FirstError(body.fields, parses).None? && saveOk ==>
      var a := NewAuthor(old(db.books), newId, body.fields);
      && r == Reply(201, "ok", Text("Autor agregado con éxito"), AuthorRecord(a))
      && db.authors == old(db.authors)[newId := a]
      && db.books == old(db.books) && db.users == old(db.users)
  {
    if verb != Post {
      return NotAllowed;
    }
    if !AuthorModel.Assignable(body.fields) {
      return UnknownProperty;
    }
    var blocking := ScanErrors(Validate(AuthorModel.Rules, body.fields, parses));
    AuthorModel.RulesFirstError(body.fields, parses);
    if blocking.Some? {
      return Reply(404, "error", blocking.value, Nothing);
    }
    var books: seq<BookSummary> := [];
    var submitted := Field(body, "books");
    if submitted.List? {
      books := ResolveBooks(db.books, submitted.items);
    }
    var a := Author(newId, Field(body, "fullname"), Field(body, "birthdate"), books, Active);
    if !saveOk {
      return Reply(400, "error", Text("No se creó el Autor"), SaveErrors);
    }
    db.authors := db.authors[newId := a];
    return Reply(201, "ok", Text("Autor agregado con éxito"), AuthorRecord(a));
  }

  /** `actionUpdate`. Only PUT is accepted here, so a PATCH request, which the
      verb filter lets through, is answered 405. The record is looked up by
      `_id` alone, so a DELETED author can be updated (and stays DELETED). */
  method Update(db: Store, verb: Verb, body: Body, saveOk: bool, parses: DateParser) returns (r: Response)
    requires db.Valid()
    modifies db
    ensures db.Valid()
    ensures verb != Put ==> r == NotAllowed && unchanged(db)
    ensures verb == Put && !Truthy(body.id) ==>
      r == NotFound("Se requiere el '_id' del autor") && unchanged(db)
    ensures verb == Put && Truthy(body.id) && !AuthorModel.Assignable(body.fields) ==>
      r == UnknownProperty && unchanged(db)
    ensures verb == Put && Truthy(body.id) && AuthorModel.Assignable(body.fields) && AuthorModel.FirstError(body.fields, parses).Some? ==>
      r == Reply(404, "error", AuthorModel.FirstError(body.fields, parses).value, Nothing) && unchanged(db)
    ensures verb == Put && Truthy(body.id) && AuthorModel.Assignable(body.fields) && AuthorModel.FirstError(body.fields, parses).None?
            && body.id.value !in old(db.authors) ==>
      r == NotFound("No se encontró el autor referenciado") && unchanged(db)
    ensures verb == Put && Truthy(body.id) && AuthorModel.Assignable(body.fields) && AuthorModel.FirstError(body.fields, parses).None?
            && body.id.value in old(db.authors) ==>
      var id := body.id.value;
      var u := UpdatedAuthor(old(db.books), old(db.authors)[id], body.fields);
      if saveOk then
        && r == Reply(200, "ok", Text("Autor editado con éxito"), AuthorRecord(u))
        && db.authors == old(db.authors)[id := u]
        && db.books == old(db.books) && db.users == old(db.users)
      else
        r == Reply(400, "error", Text("No se editó el autor"), SaveErrors) && unchanged(db)
  {
    if verb != Put {
      return NotAllowed;
    }
    if !Truthy(body.id) {
      return NotFound("Se requiere el '_id' del autor");
    }
    if !AuthorModel.Assignable(body.fields) {
      return UnknownProperty;
    }
    var blocking := ScanErrors(Validate(AuthorModel.Rules, body.fields, parses));
    AuthorModel.RulesFirstError(body.fields, parses);
    if blocking.Some? {
      return Reply(404, "error", blocking.value, Nothing);
    }
    var id := body.id.value;
    if id !in db.authors {
      return NotFound("No se encontró el autor referenciado");
    }
    var a := db.authors[id];
    a := a.(fullname := Field(body, "fullname"), birthdate := Field(body, "birthdate"));
    var submitted := Field(body, "books");
    if submitted.List? {
      var books := ResolveBooks(db.books, submitted.items);
      a := a.(books := books);
    }
    if !saveOk {
      return Reply(400, "error", Text("No se editó el autor"), SaveErrors);
    }
    db.authors := db.authors[id := a];
    return Reply(200, "ok", Text("Autor editado con éxito"), AuthorRecord(a));
  }

  /** `actionDelete`: a soft delete followed by the cleanup of every book that
      cites the author. */
  method Delete(db: Store, verb: Verb, body: Body, saveOk: bool) returns (r: Response)
    requires db.Valid()
    modifies db
    ensures db.Valid()
    ensures !verb.Delete? ==> r == NotAllowed && unchanged(db)
    ensures verb.Delete? && !Truthy(body.id) ==>
      r == NotFound("Se debe enviar el '_id' del autor") && unchanged(db)
    ensures verb.Delete? && Truthy(body.id) && AuthorModel.GetAuthorById(old(db.authors), body.id.value).None? ==>
      r == NotFound("No se encontró el autor referenciado") && unchanged(db)
    ensures verb.Delete? && Truthy(body.id) && AuthorModel.GetAuthorById(old(db.authors), body.id.value).Some? ==>
      var id := body.id.value;
      if saveOk then
        && r == Reply(200, "ok", Text("Autor eliminado correctamente"), Done)
        && db.authors == old(db.authors)[id := old(db.authors)[id].(state := Deleted)]
        && db.books == AfterAuthorDelete(old(db.books), id)
        && db.users == old(db.users)
      else
        r == Reply(400, "error", Text("No se eliminó el autor"), Nothing) && unchanged(db)
  {
    if !verb.Delete? {
      return NotAllowed;
    }
    if !Truthy(body.id) {
      return NotFound("Se debe enviar el '_id' del autor");
    }
    var id := body.id.value;
    var found := AuthorModel.GetAuthorById(db.authors, id);
    if found.None? {
      return NotFound("No se encontró el autor referenciado");
    }
    if !saveOk {
      return Reply(400, "error", Text("No se eliminó el autor"), Nothing);
    }
    db.authors := db.authors[id := found.value.(state := Deleted)];
    ClearBooks(db, id);
    return Reply(200, "ok", Text("Autor eliminado correctamente"), Done);
  }

  // ---------------------------------------------------------------------------
  // Properties across actions
  // ---------------------------------------------------------------------------

  /** The listing after a create shows every author listed before and the new
      one under its `_id`. */
  lemma IndexAfterCreate(books: map<Id, Book>, authors: map<Id, Author>, newId: Id, fields: map<string, Value>)
    ensures var a := NewAuthor(books, newId, fields);
      Index(authors[newId := a]).payload == Authors(AuthorModel.GetAuthors(authors)[newId := a])
  {
  }

  /** Viewing an author just created returns it, provided its `_id` is truthy. */
  lemma ViewAfterCreate(books: map<Id, Book>, authors: map<Id, Author>, newId: Id, fields: map<string, Value>, query: map<string, Value>)
    requires Truthy(Some(newId))
    ensures var a := NewAuthor(books, newId, fields);
      View(authors[newId := a], Body(Some(newId), query)) == Reply(200, "ok", Text("Autor encontrado"), AuthorRecord(a))
  {
  }

  /** After a delete, viewing the author finds nothing, and so does a second
      delete (its lookup is the same GetAuthorById); an update still finds
      the record. */
  lemma GoneAfterDelete(authors: map<Id, Author>, id: Id, query: map<string, Value>)
    requires id in authors && Truthy(Some(id))
    ensures var after := authors[id := authors[id].(state := Deleted)];
      && AuthorModel.GetAuthorById(after, id).None?
      && View(after, Body(Some(id), query)) == NotFound("No se encontró el autor referenciado")
      && id !in AuthorModel.GetAuthors(after)
      && AuthorModel.GetAuthors(after) == AuthorModel.GetAuthors(authors) - {id}
      && id in after
  {
  }
}
