# Library catalogue: verified model of the write logic

This Dafny project models the core of a Yii2/MongoDB REST backend for a library
catalogue. The backend has three collections: authors, books and users.

- A book embeds summaries of its authors, and an author embeds summaries of
  its books. Each summary is a copy of the other record without its own
  back-reference list.
- Records are never removed. A delete sets `state` to DELETED. It then cleans
  the embedded summaries in the opposite collection.
- Users log in with a username and password and receive an access token. The
  token expires after TOKEN_EXPIRATION seconds. Every Book and Author action
  first checks the `Authorization: Bearer <token>` header.

The store is a `class Store` with three maps from `_id` to record. Its `Valid()`
invariant says that every record is stored under its own `_id`, and that
usernames and issued tokens each identify at most one user.

The reading actions (Index, View) are functions over the collections. The
writing actions are module methods that take the store `db: Store` and may
modify it. Their `ensures` give the exact response and the exact new store
on every path the model covers; "## Left out" lists the paths it does not.
The loops of the source are `while` loops proved against reference
functions:

- the id-resolution loop, against `Links.Resolve` and `Links.LiveIds`;
- the summary filter, against `Links.Without`;
- the fan-out over the query result (`CleanAuthors`, `CleanBooks`), against `AfterBookDelete` and `AfterAuthorDelete`;
- the scan for the first reported error, against `Validation.FirstBlocking`.

Validation models the framework's rule engine over the literal `rules()` arrays. The
rules run in order, a validator is skipped once an attribute has an error, and
every validator except `required` is skipped for empty values. Lemmas reduce
the engine to a closed form. They show that the message a controller reports is
the first error not on `state`.

Modules, one per file:

- Base definitions: `Common`, `Records`, `Http`, `DocumentStore`.
- Generic sequence operations for the links: `Links`.
- The rule engine: `Validation`.
- The models: `BookModel`, `AuthorModel`, `UserModel`.
- The Authorization-header check: `TokenHelper`.
- The controllers: `BookController`, `AuthorController`, `AuthController`.

These are parameters of the actions:

- the clock (`now`) and TOKEN_EXPIRATION (`ttl`);
- the random token (`token`, which no user holds yet);
- the `_id` the store assigns on insert (`newId`);
- the outcome of the primary record's `save()` (`saveOk`);
- the framework's date parser (`parses`);
- the Authorization header (an `Option<string>`).

A request body is `Body(id, fields)`:

- `id` is `Some(s)` for a string `_id` and `None` when it is absent or null.
- A falsy `_id` ("" or "0", as PHP treats them) counts as missing.

## Model

| member | source | states |
|---|---|---|
| Links.ResolveIds | controllers/BookController.php:169-182 | The ids of the resolved summaries are exactly the submitted ids that name a live record, in submitted order; ids that do not resolve are skipped rather than rejected |
| Links.ResolveFromStore | controllers/BookController.php:173-180 | Every resolved summary is the stripped copy of the live record its id names |
| Links.ResolveAppend | controllers/BookController.php:173-180 | Resolution walks the list in order: resolving a concatenation concatenates the results |
| Links.LiveIdsMembers | controllers/AuthorController.php:164-172 | An id is among the resolved ids exactly when it was submitted and names a live record |
| Links.LiveIdsOccurrences | controllers/AuthorController.php:164-172 | Duplicate ids are not collapsed: a resolving id appears as often as it was submitted, and a non-resolving one never |
| Links.LiveIdsAllResolve | controllers/BookController.php:173-180 | When every submitted id resolves, nothing is dropped |
| Links.FilterOut | controllers/BookController.php:356-360 | The `$validBooks`/`$validAuthors` loop computes exactly the summaries without the given id |
| Links.WithoutClears | controllers/BookController.php:356-360 | After filtering, no summary carries the deleted id |
| Links.WithoutMembers | controllers/AuthorController.php:346-350 | A summary survives exactly when it was present and carries another id |
| Links.WithoutOccurrences | controllers/AuthorController.php:346-350 | Each surviving summary occurs as often as before; none is lost or duplicated |
| Links.WithoutKeepsOrder | controllers/BookController.php:356-360 | Two surviving summaries keep their relative order |
| Links.WithoutAppend | controllers/BookController.php:356-360 | Filtering distributes over concatenation |
| Links.WithoutNoop | controllers/AuthorController.php:344-353 | A list that does not cite the id is left as it is |
| Links.WithoutCommutes | controllers/AuthorController.php:346-350 | Removing two ids gives the same list in either order |
| Validation.RunChecksDistinct | models/Book.php:34-45 | The rule engine reports each attribute at most once, and its set of failed attributes is exactly the attributes with an error |
| Validation.RunChecksPrefix | models/Author.php:33-42 | Running further checks only appends errors |
| Validation.StepArray | models/Book.php:81-86 | The inline array check yields its error exactly when the value is non-empty and not an array; otherwise the outcome is unchanged |
| Validation.FirstBlockingSpec | controllers/BookController.php:155-166 | The reported message is the message of the first error not on `state`, and there is none exactly when every error is on `state` |
| Validation.ScanErrors | controllers/BookController.php:155-166 | The scan over `$model->errors` returns exactly the first message not on `state` |
| BookModel.RulesChecks | models/Book.php:34-45 | The rule list expands to its checks in execution order, one per (attribute, validator) |
| BookModel.RulesErrors | models/Book.php:34-45 | The errors of the Book rules equal ClosedErrors: one per failing check, in run order, with type and format checks only on values `required` accepted |
| BookModel.RulesFailed | models/Book.php:34-45 | The attributes with an error are exactly those ClosedFailed names |
| BookModel.ClosedFirstError | models/Book.php:34-45 | The first error not on `state` in the closed form is FirstError's message |
| BookModel.RulesFirstError | models/Book.php:34-45 | The rule engine's first non-`state` error is exactly FirstError: title, year, description missing; title or description not a string; year not a year; authors not an array |
| BookModel.StateNeverBlocks | controllers/BookController.php:155-166 | Whatever `state` holds, including nothing, the body is refused or accepted as it would be otherwise |
| BookModel.MissingReported | models/Book.php:37-40 | A missing title, publicationYear, description or state is reported with its own message |
| BookModel.AuthorsArrayReported | models/Book.php:81-86 | `authors` has an error exactly when it is non-empty and not an array, and then the error is "'authors' debe ser un array" |
| BookModel.ExistsBook | models/Book.php:92-95 | Returns an ACTIVE stored book with that title and publication year; None exactly when there is none |
| AuthorModel.RulesChecks | models/Author.php:33-42 | The rule list expands to its checks in execution order |
| AuthorModel.RulesErrors | models/Author.php:33-42 | The errors of the Author rules equal ClosedErrors, one per failing check in run order |
| AuthorModel.RulesFailed | models/Author.php:33-42 | The attributes with an error are exactly those ClosedFailed names |
| AuthorModel.ClosedFirstError | models/Author.php:33-42 | The first error not on `state` in the closed form is FirstError's message |
| AuthorModel.RulesFirstError | models/Author.php:33-42 | The first non-`state` error is exactly FirstError: fullname missing; birthdate missing; birthdate not a date; fullname not a string; books not an array |
| AuthorModel.StateNeverBlocks | controllers/AuthorController.php:145-158 | Whatever `state` holds, the body is refused or accepted as it would be otherwise |
| AuthorModel.MissingReported | models/Author.php:36-39 | A missing fullname, birthdate or state is reported with its own message |
| AuthorModel.BooksArrayReported | models/Author.php:87-92 | `books` has an error exactly when it is non-empty and not an array, and then the error is "'books' debe ser un array" |
| AuthorModel.ExistsFullname | models/Author.php:78-81 | Returns an ACTIVE stored author with that full name; None exactly when there is none |
| UserModel.IsTokenValid | models/User.php:125-128 | Reference definition of `isTokenValid`: the expiry is set and lies strictly after `now`. IssuedTokenLapses and LoginOpensGuard prove what follows from it for an issued token |
| UserModel.ValidatePassword | models/User.php:105-108 | Reference definition of `validatePassword`: the stored hash equals the submitted string. AuthController.Login and StoredCredentialsAccepted state what a login does with it |
| UserModel.FindByUsernameStored | models/User.php:71-74 | With usernames unique, looking up a stored user's username returns exactly that user |
| UserModel.FindIdentityByAccessToken | models/User.php:57-64 | A user is returned exactly when some stored user holds the token and its expiry lies after `now` |
| UserModel.Issue | models/User.php:114-119 | The new token and its expiry `now + ttl` are set; id, username and password hash are unchanged |
| UserModel.IssueKeepsUnique | models/User.php:114-119 | Issuing a fresh token keeps usernames and tokens unambiguous |
| UserModel.IssuedTokenIdentifies | models/User.php:114-119 | Right after the issue, the token identifies that user at the same instant exactly when TOKEN_EXPIRATION is positive |
| UserModel.IssuedTokenLapses | models/User.php:125-128 | The issued token identifies its user at every instant before `now + ttl` and at none from then on |
| UserModel.OnlyLatestToken | models/User.php:116-118 | Once a new token is issued, the user's previous token identifies nobody |
| UserModel.GenerateAuthKey | models/User.php:114-119 | Only that user's record changes, to Issue of it; the store stays valid |
| TokenHelper.BearerTokenMatches | helpers/TokenHelper.php:22-23 | A captured token is one `/^Bearer\s+(.*?)$/` admits with it as the group, taken after the whole whitespace run |
| TokenHelper.BearerTokenComplete | helpers/TokenHelper.php:22 | Every header the pattern matches yields a token, so a header not of the form `Bearer<whitespace>…` yields none |
| TokenHelper.BearerRoundTrip | helpers/TokenHelper.php:22-23 | Sending `Bearer <token>` gives back the token for any token without a line feed or leading whitespace |
| TokenHelper.CheckAuth | helpers/TokenHelper.php:15-29 | A falsy header raises 'Token no existente'; otherwise the verdict is true exactly when the captured token identifies a user whose token has not expired |
| TokenHelper.Guard | controllers/BookController.php:51-58 | The action runs exactly when checkAuth returns true; otherwise Unauthorized, 'Token no existente' exactly for a falsy header and 'Token no válido o caducado' for the rest |
| BookController.View | controllers/BookController.php:106-141 | A falsy `_id` gets 404 before any lookup; 200 with the book exactly when it is stored and ACTIVE; otherwise 404 'No se encontró el libro referenciado' |
| BookController.ResolveAuthors | controllers/BookController.php:169-182 | The loop builds exactly the resolved summaries of the ACTIVE authors named, in order |
| BookController.NewBookAuthors | controllers/BookController.php:168-182 | A created book is ACTIVE; its authors are, in order, exactly the submitted ids naming an ACTIVE author, each summary that author without `books`; a non-array or absent `authors` gives none |
| BookController.UpdatedBookAuthors | controllers/BookController.php:264-279 | Update overwrites title, publicationYear and description, keeps id and state, replaces authors only for a submitted array (the submitted ids naming an ACTIVE author, each summary that author without `books`) and otherwise leaves them as they were |
| BookController.AfterBookDeleteSpec | controllers/BookController.php:344-363 | After the cleanup no ACTIVE author cites the book, non-ACTIVE authors are untouched, and the cleaned authors only lose that book's summaries, the rest in order |
| BookController.CleanAuthors | controllers/BookController.php:347-363 | The fan-out loop over the ACTIVE authors citing the book yields exactly AfterBookDelete of the authors |
| BookController.ClearAuthors | controllers/BookController.php:347-363 | The saved authors are exactly AfterBookDelete of the old ones, books and users unchanged, and the store stays valid |
| BookController.Create | controllers/BookController.php:147-217 | Every path of actionCreate: a non-POST gets 405; a body key outside `attributes()` makes `new Book` raise UnknownPropertyException, uncaught, and nothing is written; a validation failure gets 404 with FirstError's message; a failed save gets 400; otherwise 201 and the store gains exactly the new book. Error paths change nothing |
| BookController.Update | controllers/BookController.php:223-312 | Every path of actionUpdate, with the checks in order: PUT, then `_id`, then the body keys (an unknown one raises UnknownPropertyException and nothing changes), then validation ('errors' status), then an ACTIVE book, then the save; only the book changes |
| BookController.Delete | controllers/BookController.php:318-394 | Every path of actionDelete: a missing or non-ACTIVE id gets 404 and nothing changes; a successful delete marks the book DELETED and cleans the authors as AfterBookDelete |
| BookController.ViewAfterCreate | controllers/BookController.php:106-141 | Viewing a book just created returns it |
| BookController.IndexAfterCreate | models/Book.php:101-104 | After a create, `getBooks` lists exactly the books listed before plus the new ACTIVE book under its `_id` |
| BookController.GoneAfterDelete | controllers/BookController.php:334-342 | After a delete `getBookById` finds nothing, so a second delete or a view gets 404, and `getBooks` lists exactly the books listed before minus this one |
| AuthorController.View | controllers/AuthorController.php:106-133 | A falsy `_id` gets 404 before any lookup; 200 with the author exactly when it is stored and ACTIVE; otherwise 404 |
| AuthorController.ResolveBooks | controllers/AuthorController.php:161-174 | The loop builds exactly the resolved summaries of the ACTIVE books named, in order |
| AuthorController.NewAuthorBooks | controllers/AuthorController.php:160-176 | A created author is ACTIVE; its books are, in order, exactly the submitted ids naming an ACTIVE book, each without `authors`; a non-array or absent `books` gives none |
| AuthorController.UpdatedAuthorBooks | controllers/AuthorController.php:256-270 | Update overwrites fullname and birthdate, keeps id and state (DELETED included), replaces books only for a submitted array, with the submitted ids naming an ACTIVE book, each summary that book without `authors` |
| AuthorController.AfterAuthorDeleteSpec | controllers/AuthorController.php:335-353 | After the cleanup no book of any state cites the author; each book loses exactly that author's summaries, the rest in order, and nothing else |
| AuthorController.CleanBooks | controllers/AuthorController.php:335-353 | The fan-out loop over the books citing the author yields exactly AfterAuthorDelete of the books |
| AuthorController.ClearBooks | controllers/AuthorController.php:335-353 | The saved books are exactly AfterAuthorDelete of the old ones, authors and users unchanged, and the store stays valid |
| AuthorController.Create | controllers/AuthorController.php:139-210 | Every path of actionCreate: 405, then an unknown body key raising UnknownPropertyException from `new Author` with nothing written, then validation and the save; on success the store gains exactly the new author and no book is modified |
| AuthorController.Update | controllers/AuthorController.php:216-303 | Every path of actionUpdate: PUT, `_id`, an unknown body key (UnknownPropertyException, nothing changes), validation, then an author stored under the id in any state, then the save; only that author changes |
| AuthorController.Delete | controllers/AuthorController.php:309-384 | Every path of actionDelete: a missing or non-ACTIVE id gets 404 and nothing changes; a successful delete marks the author DELETED and cleans every book as AfterAuthorDelete |
| AuthorController.ViewAfterCreate | controllers/AuthorController.php:106-133 | Viewing an author just created returns it |
| AuthorController.IndexAfterCreate | models/Author.php:98-101 | After a create, `getAuthors` lists exactly the authors listed before plus the new ACTIVE author under its `_id` |
| AuthorController.GoneAfterDelete | controllers/AuthorController.php:325-333 | After a delete `getAuthorById` finds nothing, so a second delete gets 404, `getAuthors` lists exactly the authors listed before minus this one, and the record remains stored for update |
| AuthController.Login | controllers/AuthController.php:75-92 | Login succeeds exactly when a user has that username and its hash equals the password. On success the user so named, and no other record, gets the new token, which is returned. Otherwise 'Credenciales incorrectas' and nothing changes |
| AuthController.StoredCredentialsAccepted | controllers/AuthController.php:81-84 | A stored user's own username and password are accepted, and `findByUsername` returns that very user |
| AuthController.LoginOpensGuard | helpers/TokenHelper.php:22-25 | A token issued at login, sent back as `Bearer <token>`, passes the gate before `now + ttl` and is refused as invalid or expired from then on |

## Left out

- HTTP plumbing is not modelled: the verb filter, timezone and CSRF setup, `getHttpResponse`/`asJson` and reading and decoding the body. The outcome is the `Response` datatype. The verb filter's own 405 is not modelled, only the action's own verb check.
- PATCH requests are modelled as written. The verb filter allows PUT and PATCH for update, but both update actions test `isPut` only, so PATCH gets the action's 405.
- The `catch` blocks of the source are left out: the exceptions they catch come from the store and the framework, which are not modelled.
- Numbers and booleans sent as `_id`, username or password are covered by their string forms. No file declares strict types, so PHP converts them to a string where a `string` parameter receives them (`findByUsername`, `validatePassword`, `getBookById`, `getAuthorById`). A null `_id` is the modelled falsy `_id`.
- AuthorController.Update: the author lookup passes `_id` to the store query as it was sent, not through a `string` parameter. A truthy non-string `_id` there (a number, `true`, an array or an object) is a query on that value, which the model does not express, since its `_id` is a string.
- Some requests make PHP raise, uncaught, and are left out because the model's input types cannot express them:
  - at login, a null, array or object username or password, a body that is not an object, or one without `username` or `password`;
  - an array or object `_id` that reaches `getBookById` or `getAuthorById` (view, delete, and book update);
  - at create, a body that decodes to a non-empty scalar, which the constructor cannot iterate.
- Other bodies that are not objects need no extra case. At view, update and delete, `_id` is read with `?? null`, which gives null without a warning, so such a body gets the missing-`_id` 404 of an empty `Body`. At create, an empty body decodes to null and configures nothing, so it is validated like an empty `Body` and refused by the first `required` rule. A non-empty JSON array at create has integer keys outside `attributes()`, which is the modelled unknown-key path.
- BookController.Create, BookController.Update, AuthorController.Create and AuthorController.Update: the framework's own writable properties (`scenario`, `attributes`, `isNewRecord`, `oldAttributes`) and keys starting with `on ` or `as ` are treated like any other key outside `attributes()`. The constructor would accept them through their setters or as event handlers and behaviours; the model answers them with UnknownPropertyException. A read-only framework property such as `errors` raises InvalidCallException rather than UnknownPropertyException; both are uncaught, and the model names only the latter.
- `_id` values are strings. Elements of an id list are ids. Other JSON values in those places are not modelled.
- A client-supplied `_id` inside a create body is not modelled: the new record is stored under `newId`.
- A body key outside `attributes()` is not stored: `new Book`/`new Author` raise on it. Create and Update answer such a body with `UnknownProperty`, the uncaught exception, and change nothing.
- The fan-out saves are assumed to succeed. Their result is ignored by the source and not modelled.
- UserModel.GenerateAuthKey: the user's `save(false)` is assumed to store the new token. Its result is ignored by the source, and AuthController.Login returns the token whatever that save does.
- Concurrency and crashes during the fan-out are out of scope: the model is sequential and atomic.
- The wording of the framework's own messages for the `string` and `date` validators is abstract (`MustBeString`, `InvalidFormat`), and the date parser is a parameter.
- The contents of the save error list (`SaveErrors`) are abstract.
- The equality of ObjectIds and strings under `!==` is not modelled: ids are one abstract string type.
- Query result order is not modelled: `getBooks`/`getAuthors` return maps. ExistsBook and ExistsFullname pick any match when several exist.
- `actionPassword` is not modelled: it only wraps the framework's password hashing, a foreign call.
- `generateRandomString` is a parameter. LoginOpensGuard assumes its documented alphabet (letters, digits, `_`, `-`) as TokenAlphabet.
- The identity stubs `getId`, `getAuthKey` and `validateAuthKey` are left out: they name undeclared properties and nothing in the core calls them.
- The store keeps usernames and issued tokens unique (`Valid()`). The source relies on `findOne` instead, which returns an arbitrary first match.
- TokenHelper.BearerToken: `\s` is the ASCII whitespace set. The line feed handling is that of `$` without the multiline flag. Other Unicode whitespace is not considered.
- The authentication gate is stated once, as TokenHelper.Guard, rather than threaded through every Book and Author action.
- GlobalConstants is not part of this model. STATE_ACTIVO and STATE_DELETE are the two `State` constructors, and TOKEN_EXPIRATION is the parameter `ttl`.
