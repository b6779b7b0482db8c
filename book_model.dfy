/** The Book model: its validation rules and its queries over the `books`
    collection, which all filter on the ACTIVE state. */
module BookModel {
  import opened Common
  import opened Records
  import opened Validation

  const TitleRequired := "El título es obligatorio."
  const YearRequired := "El año de publicación es obligatorio."
  const DescriptionRequired := "La descripción es obligatoria."
  const StateRequired := "El estado es obligatorio."
  const AuthorsNotArray := "'authors' debe ser un array"

  /** `attributes()`: the names a Book has. The constructor assigns every
      key of the body it is given, and a key outside this list raises. */
  const Attributes: set<string> := {"_id", "title", "publicationYear", "description", "authors", "state"}

  /** The body's keys are all attributes, so the constructor accepts it. */
  predicate Assignable(fields: map<string, Value>) {
    fields.Keys <= Attributes
  }

  /** `rules()`: the rule list in the order it is written. */
  const Rules: seq<Rule> := [
    Rule(["title"], Required(TitleRequired)),
    Rule(["publicationYear"], Required(YearRequired)),
    Rule(["description"], Required(DescriptionRequired)),
    Rule(["state"], Required(StateRequired)),
    Rule(["title", "description", "state"], IsString),
    Rule(["publicationYear"], IsDate(Year)),
    Rule(["authors"], IsArray(AuthorsNotArray))
  ]

  /** Reference definition of the message a controller reports for a Book
      body: the first error, in the order the rules add them, that is not
      on `state`. */
  function FirstError(fields: map<string, Value>, parses: DateParser): Option<Message> {
    var title, year := Lookup(fields, "title"), Lookup(fields, "publicationYear");
    var description, authors := Lookup(fields, "description"), Lookup(fields, "authors");
    if !Present(title) then Some(Text(TitleRequired))
    else if !Present(year) then Some(Text(YearRequired))
    else if !Present(description) then Some(Text(DescriptionRequired))
    else if !title.Str? then Some(MustBeString("title"))
    else if !description.Str? then Some(MustBeString("description"))
    else if !parses(Year, year) then Some(InvalidFormat("publicationYear"))
    else if !IsEmpty(authors) && !authors.List? then Some(Text(AuthorsNotArray))
    else None
  }

  /** The checks of `rules()` in the order the framework runs them. */
  const RuleChecks: seq<Check> := [
    Check("title", Required(TitleRequired)),
    Check("publicationYear", Required(YearRequired)),
    Check("description", Required(DescriptionRequired)),
    Check("state", Required(StateRequired)),
    Check("title", IsString), Check("description", IsString), Check("state", IsString),
    Check("publicationYear", IsDate(Year)),
    Check("authors", IsArray(AuthorsNotArray))
  ]

  lemma RulesChecks()
    ensures Checks(Rules) == RuleChecks
  {
    ChecksSnoc(Rules, 0);
    ChecksSnoc(Rules, 1);
    ChecksSnoc(Rules, 2);
    ChecksSnoc(Rules, 3);
    ChecksSnoc(Rules, 4);
    ChecksSnoc(Rules, 5);
    ChecksSnoc(Rules, 6);
    assert Rules[..0] == [];
    assert Rules[..7] == Rules;
  }

  /** The first 4 checks run one after another, starting with no errors. */
  function EarlyOutcome(fields: map<string, Value>, parses: DateParser): Outcome {
    var o0 := Outcome([], {});
    var o1 := Step(o0, Check("title", Required(TitleRequired)), fields, parses);
    var o2 := Step(o1, Check("publicationYear", Required(YearRequired)), fields, parses);
    var o3 := Step(o2, Check("description", Required(DescriptionRequired)), fields, parses);
    Step(o3, Check("state", Required(StateRequired)), fields, parses)
  }

  /** The three `string` checks run after the first four checks. */
  function MidOutcome(fields: map<string, Value>, parses: DateParser): Outcome {
    var o4 := EarlyOutcome(fields, parses);
    var o5 := Step(o4, Check("title", IsString), fields, parses);
    var o6 := Step(o5, Check("description", IsString), fields, parses);
    Step(o6, Check("state", IsString), fields, parses)
  }

  /** The rules' checks run one after another, starting with no errors. */
  function RulesOutcome(fields: map<string, Value>, parses: DateParser): Outcome {
    var o7 := MidOutcome(fields, parses);
    var o8 := Step(o7, Check("publicationYear", IsDate(Year)), fields, parses);
    Step(o8, Check("authors", IsArray(AuthorsNotArray)), fields, parses)
  }

  /** The first four checks of the rules run as EarlyOutcome says. */
  lemma EarlyUnrolled(fields: map<string, Value>, parses: DateParser)
    ensures RunChecks(RuleChecks[..4], fields, parses) == EarlyOutcome(fields, parses)
  {
    var cs := RuleChecks;
    assert cs[..0] == [];
    RunChecksSnoc(cs, 0, fields, parses);
    var o1 := RunChecks(cs[..1], fields, parses);
    RunChecksSnoc(cs, 1, fields, parses);
    var o2 := RunChecks(cs[..2], fields, parses);
    RunChecksSnoc(cs, 2, fields, parses);
    var o3 := RunChecks(cs[..3], fields, parses);
    RunChecksSnoc(cs, 3, fields, parses);
    var o4 := RunChecks(cs[..4], fields, parses);
  }

  /** The first seven checks of the rules run as MidOutcome says. */
  lemma MidUnrolled(fields: map<string, Value>, parses: DateParser)
    ensures RunChecks(RuleChecks[..7], fields, parses) == MidOutcome(fields, parses)
  {
    EarlyUnrolled(fields, parses);
    var cs := RuleChecks;
    var o4 := RunChecks(cs[..4], fields, parses);
    RunChecksSnoc(cs, 4, fields, parses);
    var o5 := RunChecks(cs[..5], fields, parses);
    RunChecksSnoc(cs, 5, fields, parses);
    var o6 := RunChecks(cs[..6], fields, parses);
    RunChecksSnoc(cs, 6, fields, parses);
    var o7 := RunChecks(cs[..7], fields, parses);
  }

  lemma RulesUnrolled(fields: map<string, Value>, parses: DateParser)
    ensures RunChecks(Checks(Rules), fields, parses) == RulesOutcome(fields, parses)
  {
    RulesChecks();
    MidUnrolled(fields, parses);
    var cs := RuleChecks;
    var o7 := RunChecks(cs[..7], fields, parses);
    RunChecksSnoc(cs, 7, fields, parses);
    var o8 := RunChecks(cs[..8], fields, parses);
    RunChecksSnoc(cs, 8, fields, parses);
    var o9 := RunChecks(cs[..9], fields, parses);
    assert cs[..9] == cs;
  }

  /** Reference definition of the errors: one per failing check, in the
      order the checks run, where a type or format check only looks at an
      attribute that `required` accepted. */
  function ClosedErrors(fields: map<string, Value>, parses: DateParser): seq<FieldError> {
    var title, year := Lookup(fields, "title"), Lookup(fields, "publicationYear");
    var description, state := Lookup(fields, "description"), Lookup(fields, "state");
    var authors := Lookup(fields, "authors");
    ErrorIf(!Present(title), "title", Text(TitleRequired))
    + ErrorIf(!Present(year), "publicationYear", Text(YearRequired))
    + ErrorIf(!Present(description), "description", Text(DescriptionRequired))
    + ErrorIf(!Present(state), "state", Text(StateRequired))
    + ErrorIf(Present(title) && !title.Str?, "title", MustBeString("title"))
    + ErrorIf(Present(description) && !description.Str?, "description", MustBeString("description"))
    + ErrorIf(Present(state) && !state.Str?, "state", MustBeString("state"))
    + ErrorIf(Present(year) && !parses(Year, year), "publicationYear", InvalidFormat("publicationYear"))
    + ErrorIf(!IsEmpty(authors) && !authors.List?, "authors", Text(AuthorsNotArray))
  }

  /** Reference definition of the attributes that have an error. */
  function ClosedFailed(fields: map<string, Value>, parses: DateParser): set<string> {
    var title, year := Lookup(fields, "title"), Lookup(fields, "publicationYear");
    var description, state := Lookup(fields, "description"), Lookup(fields, "state");
    var authors := Lookup(fields, "authors");
    FailedIf(!Present(title), "title")
    + FailedIf(!Present(year), "publicationYear")
    + FailedIf(!Present(description), "description")
    + FailedIf(!Present(state), "state")
    + FailedIf(Present(title) && !title.Str?, "title")
    + FailedIf(Present(description) && !description.Str?, "description")
    + FailedIf(Present(state) && !state.Str?, "state")
    + FailedIf(Present(year) && !parses(Year, year), "publicationYear")
    + FailedIf(!IsEmpty(authors) && !authors.List?, "authors")
  }

  /** The outcome of the first 4 checks in closed form. */
  lemma EarlyClosed(fields: map<string, Value>, parses: DateParser)
    ensures var title, year := Lookup(fields, "title"), Lookup(fields, "publicationYear");
      var description, state := Lookup(fields, "description"), Lookup(fields, "state");
      var authors := Lookup(fields, "authors");
      EarlyOutcome(fields, parses).errors
      == ErrorIf(!Present(title), "title", Text(TitleRequired))
       + ErrorIf(!Present(year), "publicationYear", Text(YearRequired))
       + ErrorIf(!Present(description), "description", Text(DescriptionRequired))
       + ErrorIf(!Present(state), "state", Text(StateRequired))
    ensures var title, year := Lookup(fields, "title"), Lookup(fields, "publicationYear");
      var description, state := Lookup(fields, "description"), Lookup(fields, "state");
      var authors := Lookup(fields, "authors");
      EarlyOutcome(fields, parses).failed
      == FailedIf(!Present(title), "title")
       + FailedIf(!Present(year), "publicationYear")
       + FailedIf(!Present(description), "description")
       + FailedIf(!Present(state), "state")
  {
    var title, year := Lookup(fields, "title"), Lookup(fields, "publicationYear");
    var description, state := Lookup(fields, "description"), Lookup(fields, "state");
    var authors := Lookup(fields, "authors");
    var o0 := Outcome([], {});
    var o1 := Step(o0, Check("title", Required(TitleRequired)), fields, parses);
    StepRequired(o0, "title", TitleRequired, fields, parses);
    var o2 := Step(o1, Check("publicationYear", Required(YearRequired)), fields, parses);
    StepRequired(o1, "publicationYear", YearRequired, fields, parses);
    var o3 := Step(o2, Check("description", Required(DescriptionRequired)), fields, parses);
    StepRequired(o2, "description", DescriptionRequired, fields, parses);
    var o4 := Step(o3, Check("state", Required(StateRequired)), fields, parses);
    StepRequired(o3, "state", StateRequired, fields, parses);
    assert o1.errors == ErrorIf(!Present(title), "title", Text(TitleRequired));
    assert o1.failed == FailedIf(!Present(title), "title");
    assert o4 == EarlyOutcome(fields, parses);
  }

  /** The outcome of the first seven checks in closed form. */
  lemma MidClosed(fields: map<string, Value>, parses: DateParser)
    ensures var title, year := Lookup(fields, "title"), Lookup(fields, "publicationYear");
      var description, state := Lookup(fields, "description"), Lookup(fields, "state");
      var authors := Lookup(fields, "authors");
      MidOutcome(fields, parses).errors
      == ErrorIf(!Present(title), "title", Text(TitleRequired))
       + ErrorIf(!Present(year), "publicationYear", Text(YearRequired))
       + ErrorIf(!Present(description), "description", Text(DescriptionRequired))
       + ErrorIf(!Present(state), "state", Text(StateRequired))
       + ErrorIf(Present(title) && !title.Str?, "title", MustBeString("title"))
       + ErrorIf(Present(description) && !description.Str?, "description", MustBeString("description"))
       + ErrorIf(Present(state) && !state.Str?, "state", MustBeString("state"))
    ensures var title, year := Lookup(fields, "title"), Lookup(fields, "publicationYear");
      var description, state := Lookup(fields, "description"), Lookup(fields, "state");
      var authors := Lookup(fields, "authors");
      MidOutcome(fields, parses).failed
      == FailedIf(!Present(title), "title")
       + FailedIf(!Present(year), "publicationYear")
       + FailedIf(!Present(description), "description")
       + FailedIf(!Present(state), "state")
       + FailedIf(Present(title) && !title.Str?, "title")
       + FailedIf(Present(description) && !description.Str?, "description")
       + FailedIf(Present(state) && !state.Str?, "state")
  {
    var title, year := Lookup(fields, "title"), Lookup(fields, "publicationYear");
    var description, state := Lookup(fields, "description"), Lookup(fields, "state");
    var authors := Lookup(fields, "authors");
    EarlyClosed(fields, parses);
    var o4 := EarlyOutcome(fields, parses);
    var o5 := Step(o4, Check("title", IsString), fields, parses);
    StepString(o4, "title", fields, parses);
    var o6 := Step(o5, Check("description", IsString), fields, parses);
    StepString(o5, "description", fields, parses);
    var o7 := Step(o6, Check("state", IsString), fields, parses);
    StepString(o6, "state", fields, parses);
    assert o7 == MidOutcome(fields, parses);
  }

  lemma OutcomeErrors(fields: map<string, Value>, parses: DateParser)
    ensures RulesOutcome(fields, parses).errors == ClosedErrors(fields, parses)
  {
    var title, year := Lookup(fields, "title"), Lookup(fields, "publicationYear");
    var description, state := Lookup(fields, "description"), Lookup(fields, "state");
    var authors := Lookup(fields, "authors");
    MidClosed(fields, parses);
    var o7 := MidOutcome(fields, parses);
    var o8 := Step(o7, Check("publicationYear", IsDate(Year)), fields, parses);
    StepDate(o7, "publicationYear", Year, fields, parses);
    var o9 := Step(o8, Check("authors", IsArray(AuthorsNotArray)), fields, parses);
    StepArray(o8, "authors", AuthorsNotArray, fields, parses);
    assert o9 == RulesOutcome(fields, parses);
  }

  lemma OutcomeFailed(fields: map<string, Value>, parses: DateParser)
    ensures RulesOutcome(fields, parses).failed == ClosedFailed(fields, parses)
  {
    var title, year := Lookup(fields, "title"), Lookup(fields, "publicationYear");
    var description, state := Lookup(fields, "description"), Lookup(fields, "state");
    var authors := Lookup(fields, "authors");
    MidClosed(fields, parses);
    var o7 := MidOutcome(fields, parses);
    var o8 := Step(o7, Check("publicationYear", IsDate(Year)), fields, parses);
    StepDate(o7, "publicationYear", Year, fields, parses);
    var o9 := Step(o8, Check("authors", IsArray(AuthorsNotArray)), fields, parses);
    StepArray(o8, "authors", AuthorsNotArray, fields, parses);
    assert o9 == RulesOutcome(fields, parses);
  }

  /** The errors of the rules in closed form: one per failing check, in the
      order the checks run, where a type or format check only looks at an
      attribute that `required` accepted. */
  lemma RulesErrors(fields: map<string, Value>, parses: DateParser)
    ensures Validate(Rules, fields, parses) == ClosedErrors(fields, parses)
  {
    RulesUnrolled(fields, parses);
    OutcomeErrors(fields, parses);
  }

  /** The attributes with an error in closed form. */
  lemma RulesFailed(fields: map<string, Value>, parses: DateParser)
    ensures RunChecks(Checks(Rules), fields, parses).failed == ClosedFailed(fields, parses)
  {
    RulesUnrolled(fields, parses);
    OutcomeFailed(fields, parses);
  }

  /** The first error not on `state` of the closed form is FirstError's. */
  lemma ClosedFirstError(fields: map<string, Value>, parses: DateParser)
    ensures FirstBlocking(ClosedErrors(fields, parses)) == FirstError(fields, parses)
  {
    var title, year := Lookup(fields, "title"), Lookup(fields, "publicationYear");
    var description, state := Lookup(fields, "description"), Lookup(fields, "state");
    var authors := Lookup(fields, "authors");
    var s1 := ErrorIf(!Present(title), "title", Text(TitleRequired));
    FirstBlockingSnoc([], !Present(title), "title", Text(TitleRequired));
    assert [] + s1 == s1;
    var s2 := s1 + ErrorIf(!Present(year), "publicationYear", Text(YearRequired));
    FirstBlockingSnoc(s1, !Present(year), "publicationYear", Text(YearRequired));
    var s3 := s2 + ErrorIf(!Present(description), "description", Text(DescriptionRequired));
    FirstBlockingSnoc(s2, !Present(description), "description", Text(DescriptionRequired));
    var s4 := s3 + ErrorIf(!Present(state), "state", Text(StateRequired));
    FirstBlockingSnoc(s3, !Present(state), "state", Text(StateRequired));
    var s5 := s4 + ErrorIf(Present(title) && !title.Str?, "title", MustBeString("title"));
    FirstBlockingSnoc(s4, Present(title) && !title.Str?, "title", MustBeString("title"));
    var s6 := s5 + ErrorIf(Present(description) && !description.Str?, "description", MustBeString("description"));
    FirstBlockingSnoc(s5, Present(description) && !description.Str?, "description", MustBeString("description"));
    var s7 := s6 + ErrorIf(Present(state) && !state.Str?, "state", MustBeString("state"));
    FirstBlockingSnoc(s6, Present(state) && !state.Str?, "state", MustBeString("state"));
    var s8 := s7 + ErrorIf(Present(year) && !parses(Year, year), "publicationYear", InvalidFormat("publicationYear"));
    FirstBlockingSnoc(s7, Present(year) && !parses(Year, year), "publicationYear", InvalidFormat("publicationYear"));
    var s9 := s8 + ErrorIf(!IsEmpty(authors) && !authors.List?, "authors", Text(AuthorsNotArray));
    FirstBlockingSnoc(s8, !IsEmpty(authors) && !authors.List?, "authors", Text(AuthorsNotArray));
  }

  /** The rules report exactly the message FirstError describes: a body is
      refused with FirstError's message, and passes only when every error
      is on `state`. */
  lemma RulesFirstError(fields: map<string, Value>, parses: DateParser)
    ensures FirstBlocking(Validate(Rules, fields, parses)) == FirstError(fields, parses)
  {
    RulesErrors(fields, parses);
    ClosedFirstError(fields, parses);
  }

  /** The verdict never depends on `state`: whatever value it has, missing
      or malformed included, the body is refused or accepted as it would be
      otherwise. */
  lemma StateNeverBlocks(fields: map<string, Value>, parses: DateParser, v: Value)
    ensures FirstBlocking(Validate(Rules, fields["state" := v], parses)) == FirstBlocking(Validate(Rules, fields, parses))
  {
    RulesFirstError(fields, parses);
    RulesFirstError(fields["state" := v], parses);
  }

  /** Each required attribute, when missing, is reported with its message. */
  lemma MissingReported(fields: map<string, Value>, parses: DateParser, attribute: string, message: string)
    requires (attribute, message) in {("title", TitleRequired), ("publicationYear", YearRequired),
                                      ("description", DescriptionRequired), ("state", StateRequired)}
    requires Lookup(fields, attribute) == Null
    ensures FieldError(attribute, Text(message)) in Validate(Rules, fields, parses)
  {
    RulesErrors(fields, parses);
  }

  /** `validateAuthorsArray`: an `authors` value that is neither empty nor an
      array is reported, and an array or an empty value never is. */
  lemma AuthorsArrayReported(fields: map<string, Value>, parses: DateParser)
    ensures HasError(Validate(Rules, fields, parses), "authors")
        <==> !IsEmpty(Lookup(fields, "authors")) && !Lookup(fields, "authors").List?
    ensures HasError(Validate(Rules, fields, parses), "authors")
        ==> FieldError("authors", Text(AuthorsNotArray)) in Validate(Rules, fields, parses)
  {
    var title, year := Lookup(fields, "title"), Lookup(fields, "publicationYear");
    var description, state := Lookup(fields, "description"), Lookup(fields, "state");
    var authors := Lookup(fields, "authors");
    var failing := !IsEmpty(authors) && !authors.List?;
    assert HasError(Validate(Rules, fields, parses), "authors") <==> "authors" in RunChecks(Checks(Rules), fields, parses).failed by {
      RunChecksDistinct(Checks(Rules), fields, parses);
    }
    assert "authors" in RunChecks(Checks(Rules), fields, parses).failed <==> failing by {
      RulesFailed(fields, parses);
    }
    if failing {
      RulesErrors(fields, parses);
      ErrorIfMember(ErrorIf(!Present(title), "title", Text(TitleRequired)) + ErrorIf(!Present(year), "publicationYear", Text(YearRequired)) + ErrorIf(!Present(description), "description", Text(DescriptionRequired)) + ErrorIf(!Present(state), "state", Text(StateRequired)) + ErrorIf(Present(title) && !title.Str?, "title", MustBeString("title")) + ErrorIf(Present(description) && !description.Str?, "description", MustBeString("description")) + ErrorIf(Present(state) && !state.Str?, "state", MustBeString("state")) + ErrorIf(Present(year) && !parses(Year, year), "publicationYear", InvalidFormat("publicationYear")), failing, "authors", Text(AuthorsNotArray));
    }
  }

  /** `getBookById`: the book stored under `id`, provided it is ACTIVE. */
  function GetBookById(books: map<Id, Book>, id: Id): (r: Option<Book>)
    ensures r.Some? <==> id in books && books[id].state == Active
    ensures r.Some? ==> r.value == books[id]
  {
    if id in books && IsActiveBook(books[id]) then Some(books[id]) else None
  }

  /** `getBooks`: the ACTIVE books, keyed by id. */
  function GetBooks(books: map<Id, Book>): (r: map<Id, Book>)
    ensures forall id :: id in r <==> id in books && books[id].state == Active
    ensures forall id :: id in r ==> r[id] == books[id]
  {
    map id | id in books && IsActiveBook(books[id]) :: books[id]
  }

  /** `existsBook`: some ACTIVE book with this title and publication year, or
      None when there is none (which one, when several match, is the store's
      choice). */
  method ExistsBook(books: map<Id, Book>, title: Value, year: Value) returns (r: Option<Book>)
    ensures r.Some? ==> exists id :: id in books && books[id] == r.value
    ensures r.Some? ==> r.value.title == title && r.value.publicationYear == year && r.value.state == Active
    ensures r.None? <==> forall id :: id in books ==>
      !(books[id].title == title && books[id].publicationYear == year && books[id].state == Active)
  {
    if exists id :: id in books && books[id].title == title && books[id].publicationYear == year && IsActiveBook(books[id]) {
      var id :| id in books && books[id].title == title && books[id].publicationYear == year && IsActiveBook(books[id]);
      r := Some(books[id]);
    } else {
      r := None;
    }
  }
}
