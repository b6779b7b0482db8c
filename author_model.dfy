/** The Author model: its validation rules and its queries over the
    `authors` collection, which all filter on the ACTIVE state. */
module AuthorModel {
  import opened Common
  import opened Records
  import opened Validation

  const FullnameRequired := "El nombre completo del autor es obligatorio"
  const BirthdateRequired := "La fecha de nacimiento del autor es obligatorio"
  const StateRequired := "El estado es obligatorio."
  const BooksNotArray := "'books' debe ser un array"

  /** `attributes()`: the names a Author has. The constructor assigns every
      key of the body it is given, and a key outside this list raises. */
  const Attributes: set<string> := {"_id", "fullname", "birthdate", "books", "state"}

  /** The body's keys are all attributes, so the constructor accepts it. */
  predicate Assignable(fields: map<string, Value>) {
    fields.Keys <= Attributes
  }

  /** `rules()`: the rule list in the order it is written. */
  const Rules: seq<Rule> := [
    Rule(["fullname"], Required(FullnameRequired)),
    Rule(["birthdate"], Required(BirthdateRequired)),
    Rule(["birthdate"], IsDate(Day)),
    Rule(["state"], Required(StateRequired)),
    Rule(["fullname", "state"], IsString),
    Rule(["books"], IsArray(BooksNotArray))
  ]

  /** Reference definition of the message a controller reports for an
      Author body: the first error, in the order the rules add them, that is
      not on `state`. */
  function FirstError(fields: map<string, Value>, parses: DateParser): Option<Message> {
    var fullname, birthdate := Lookup(fields, "fullname"), Lookup(fields, "birthdate");
    var books := Lookup(fields, "books");
    if !Present(fullname) then Some(Text(FullnameRequired))
    else if !Present(birthdate) then Some(Text(BirthdateRequired))
    else if !parses(Day, birthdate) then Some(InvalidFormat("birthdate"))
    else if !fullname.Str? then Some(MustBeString("fullname"))
    else if !IsEmpty(books) && !books.List? then Some(Text(BooksNotArray))
    else None
  }

  /** The checks of `rules()` in the order the framework runs them. */
  const RuleChecks: seq<Check> := [
    Check("fullname", Required(FullnameRequired)),
    Check("birthdate", Required(BirthdateRequired)),
    Check("birthdate", IsDate(Day)),
    Check("state", Required(StateRequired)),
    Check("fullname", IsString),
    Check("state", IsString),
    Check("books", IsArray(BooksNotArray))
  ]

  /** The first four rules each contribute one check. */
  lemma EarlyChecks()
    ensures Checks(Rules[..4]) == [
      Check("fullname", Required(FullnameRequired)),
      Check("birthdate", Required(BirthdateRequired)),
      Check("birthdate", IsDate(Day)),
      Check("state", Required(StateRequired))
    ]
  {
    ChecksSnoc(Rules, 0);
    ChecksSnoc(Rules, 1);
    ChecksSnoc(Rules, 2);
    ChecksSnoc(Rules, 3);
    assert Rules[..0] == [];
  }

  lemma RulesChecks()
    ensures Checks(Rules) == RuleChecks
  {
    EarlyChecks();
    ChecksSnoc(Rules, 4);
    ChecksSnoc(Rules, 5);
    assert Rules[..6] == Rules;
  }

  /** The first 4 checks run one after another, starting with no errors. */
  function EarlyOutcome(fields: map<string, Value>, parses: DateParser): Outcome {
    var o0 := Outcome([], {});
    var o1 := Step(o0, Check("fullname", Required(FullnameRequired)), fields, parses);
    var o2 := Step(o1, Check("birthdate", Required(BirthdateRequired)), fields, parses);
    var o3 := Step(o2, Check("birthdate", IsDate(Day)), fields, parses);
    Step(o3, Check("state", Required(StateRequired)), fields, parses)
  }

  /** The rules' checks run one after another, starting with no errors. */
  function RulesOutcome(fields: map<string, Value>, parses: DateParser): Outcome {
    var o4 := EarlyOutcome(fields, parses);
    var o5 := Step(o4, Check("fullname", IsString), fields, parses);
    var o6 := Step(o5, Check("state", IsString), fields, parses);
    Step(o6, Check("books", IsArray(BooksNotArray)), fields, parses)
  }

  /** The first four checks of the rules run as EarlyOutcome says. */
  lemma EarlyUnrolled(fields: map<string, Value>, parses: DateParser)
    ensures RunChecks(RuleChecks[..4], fields, parses) == EarlyOutcome(fields, parses)
  {
    var cs := RuleChecks;
    assert cs[..0] == [];
    RunChecksSnoc(cs, 0, fields, parses);
    var o1 := RunChecks(cs[..1], fields, parses);
    RunChecksSnoc(cs, 1, fields, parses);
    var o2 := RunChecks(cs[..2], fields, parses);
    RunChecksSnoc(cs, 2, fields, parses);
    var o3 := RunChecks(cs[..3], fields, parses);
    RunChecksSnoc(cs, 3, fields, parses);
    var o4 := RunChecks(cs[..4], fields, parses);
  }

  lemma RulesUnrolled(fields: map<string, Value>, parses: DateParser)
    ensures RunChecks(Checks(Rules), fields, parses) == RulesOutcome(fields, parses)
  {
    RulesChecks();
    EarlyUnrolled(fields, parses);
    var cs := RuleChecks;
    var o4 := RunChecks(cs[..4], fields, parses);
    RunChecksSnoc(cs, 4, fields, parses);
    var o5 := RunChecks(cs[..5], fields, parses);
    RunChecksSnoc(cs, 5, fields, parses);
    var o6 := RunChecks(cs[..6], fields, parses);
    RunChecksSnoc(cs, 6, fields, parses);
    var o7 := RunChecks(cs[..7], fields, parses);
    assert cs[..7] == cs;
  }

  /** Reference definition of the errors: one per failing check, in the
      order the checks run, where a type or format check only looks at an
      attribute that `required` accepted. */
  function ClosedErrors(fields: map<string, Value>, parses: DateParser): seq<FieldError> {
    var fullname, birthdate := Lookup(fields, "fullname"), Lookup(fields, "birthdate");
    var state, books := Lookup(fields, "state"), Lookup(fields, "books");
    ErrorIf(!Present(fullname), "fullname", Text(FullnameRequired))
    + ErrorIf(!Present(birthdate), "birthdate", Text(BirthdateRequired))
    + ErrorIf(Present(birthdate) && !parses(Day, birthdate), "birthdate", InvalidFormat("birthdate"))
    + ErrorIf(!Present(state), "state", Text(StateRequired))
    + ErrorIf(Present(fullname) && !fullname.Str?, "fullname", MustBeString("fullname"))
    + ErrorIf(Present(state) && !state.Str?, "state", MustBeString("state"))
    + ErrorIf(!IsEmpty(books) && !books.List?, "books", Text(BooksNotArray))
  }

  /** Reference definition of the attributes that have an error. */
  function ClosedFailed(fields: map<string, Value>, parses: DateParser): set<string> {
    var fullname, birthdate := Lookup(fields, "fullname"), Lookup(fields, "birthdate");
    var state, books := Lookup(fields, "state"), Lookup(fields, "books");
    FailedIf(!Present(fullname), "fullname")
    + FailedIf(!Present(birthdate), "birthdate")
    + FailedIf(Present(birthdate) && !parses(Day, birthdate), "birthdate")
    + FailedIf(!Present(state), "state")
    + FailedIf(Present(fullname) && !fullname.Str?, "fullname")
    + FailedIf(Present(state) && !state.Str?, "state")
    + FailedIf(!IsEmpty(books) && !books.List?, "books")
  }

  /** The outcome of the first 4 checks in closed form. */
  lemma EarlyClosed(fields: map<string, Value>, parses: DateParser)
    ensures var fullname, birthdate := Lookup(fields, "fullname"), Lookup(fields, "birthdate");
      var state, books := Lookup(fields, "state"), Lookup(fields, "books");
      EarlyOutcome(fields, parses).errors
      == ErrorIf(!Present(fullname), "fullname", Text(FullnameRequired))
       + ErrorIf(!Present(birthdate), "birthdate", Text(BirthdateRequired))
       + ErrorIf(Present(birthdate) && !parses(Day, birthdate), "birthdate", InvalidFormat("birthdate"))
       + ErrorIf(!Present(state), "state", Text(StateRequired))
    ensures var fullname, birthdate := Lookup(fields, "fullname"), Lookup(fields, "birthdate");
      var state, books := Lookup(fields, "state"), Lookup(fields, "books");
      EarlyOutcome(fields, parses).failed
      == FailedIf(!Present(fullname), "fullname")
       + FailedIf(!Present(birthdate), "birthdate")
       + FailedIf(Present(birthdate) && !parses(Day, birthdate), "birthdate")
       + FailedIf(!Present(state), "state")
  {
    var fullname, birthdate := Lookup(fields, "fullname"), Lookup(fields, "birthdate");
    var state, books := Lookup(fields, "state"), Lookup(fields, "books");
    var o0 := Outcome([], {});
    var o1 := Step(o0, Check("fullname", Required(FullnameRequired)), fields, parses);
    StepRequired(o0, "fullname", FullnameRequired, fields, parses);
    var o2 := Step(o1, Check("birthdate", Required(BirthdateRequired)), fields, parses);
    StepRequired(o1, "birthdate", BirthdateRequired, fields, parses);
    var o3 := Step(o2, Check("birthdate", IsDate(Day)), fields, parses);
    StepDate(o2, "birthdate", Day, fields, parses);
    var o4 := Step(o3, Check("state", Required(StateRequired)), fields, parses);
    StepRequired(o3, "state", StateRequired, fields, parses);
    assert o1.errors == ErrorIf(!Present(fullname), "fullname", Text(FullnameRequired));
    assert o1.failed == FailedIf(!Present(fullname), "fullname");
    assert o4 == EarlyOutcome(fields, parses);
  }

  lemma OutcomeErrors(fields: map<string, Value>, parses: DateParser)
    ensures RulesOutcome(fields, parses).errors == ClosedErrors(fields, parses)
  {
    var fullname, birthdate := Lookup(fields, "fullname"), Lookup(fields, "birthdate");
    var state, books := Lookup(fields, "state"), Lookup(fields, "books");
    EarlyClosed(fields, parses);
    var o4 := EarlyOutcome(fields, parses);
    var o5 := Step(o4, Check("fullname", IsString), fields, parses);
    StepString(o4, "fullname", fields, parses);
    var o6 := Step(o5, Check("state", IsString), fields, parses);
    StepString(o5, "state", fields, parses);
    var o7 := Step(o6, Check("books", IsArray(BooksNotArray)), fields, parses);
    StepArray(o6, "books", BooksNotArray, fields, parses);
    assert o7 == RulesOutcome(fields, parses);
  }

  lemma OutcomeFailed(fields: map<string, Value>, parses: DateParser)
    ensures RulesOutcome(fields, parses).failed == ClosedFailed(fields, parses)
  {
    var fullname, birthdate := Lookup(fields, "fullname"), Lookup(fields, "birthdate");
    var state, books := Lookup(fields, "state"), Lookup(fields, "books");
    EarlyClosed(fields, parses);
    var o4 := EarlyOutcome(fields, parses);
    var o5 := Step(o4, Check("fullname", IsString), fields, parses);
    StepString(o4, "fullname", fields, parses);
    var o6 := Step(o5, Check("state", IsString), fields, parses);
    StepString(o5, "state", fields, parses);
    var o7 := Step(o6, Check("books", IsArray(BooksNotArray)), fields, parses);
    StepArray(o6, "books", BooksNotArray, fields, parses);
    assert o7 == RulesOutcome(fields, parses);
  }

  /** The errors of the rules in closed form: one per failing check, in the
      order the checks run, where a type or format check only looks at an
      attribute that `required` accepted. */
  lemma RulesErrors(fields: map<string, Value>, parses: DateParser)
    ensures Validate(Rules, fields, parses) == ClosedErrors(fields, parses)
  {
    RulesUnrolled(fields, parses);
    OutcomeErrors(fields, parses);
  }

  /** The attributes with an error in closed form. */
  lemma RulesFailed(fields: map<string, Value>, parses: DateParser)
    ensures RunChecks(Checks(Rules), fields, parses).failed == ClosedFailed(fields, parses)
  {
    RulesUnrolled(fields, parses);
    OutcomeFailed(fields, parses);
  }

  /** The first error not on `state` of the closed form is FirstError's. */
  lemma ClosedFirstError(fields: map<string, Value>, parses: DateParser)
    ensures FirstBlocking(ClosedErrors(fields, parses)) == FirstError(fields, parses)
  {
    var fullname, birthdate := Lookup(fields, "fullname"), Lookup(fields, "birthdate");
    var state, books := Lookup(fields, "state"), Lookup(fields, "books");
    var s1 := ErrorIf(!Present(fullname), "fullname", Text(FullnameRequired));
    FirstBlockingSnoc([], !Present(fullname), "fullname", Text(FullnameRequired));
    assert [] + s1 == s1;
    var s2 := s1 + ErrorIf(!Present(birthdate), "birthdate", Text(BirthdateRequired));
    FirstBlockingSnoc(s1, !Present(birthdate), "birthdate", Text(BirthdateRequired));
    var s3 := s2 + ErrorIf(Present(birthdate) && !parses(Day, birthdate), "birthdate", InvalidFormat("birthdate"));
    FirstBlockingSnoc(s2, Present(birthdate) && !parses(Day, birthdate), "birthdate", InvalidFormat("birthdate"));
    var s4 := s3 + ErrorIf(!Present(state), "state", Text(StateRequired));
    FirstBlockingSnoc(s3, !Present(state), "state", Text(StateRequired));
    var s5 := s4 + ErrorIf(Present(fullname) && !fullname.Str?, "fullname", MustBeString("fullname"));
    FirstBlockingSnoc(s4, Present(fullname) && !fullname.Str?, "fullname", MustBeString("fullname"));
    var s6 := s5 + ErrorIf(Present(state) && !state.Str?, "state", MustBeString("state"));
    FirstBlockingSnoc(s5, Present(state) && !state.Str?, "state", MustBeString("state"));
    var s7 := s6 + ErrorIf(!IsEmpty(books) && !books.List?, "books", Text(BooksNotArray));
    FirstBlockingSnoc(s6, !IsEmpty(books) && !books.List?, "books", Text(BooksNotArray));
  }

  /** The rules report exactly the message FirstError describes: a body is
      refused with FirstError's message, and passes only when every error
      is on `state`. */
  lemma RulesFirstError(fields: map<string, Value>, parses: DateParser)
    ensures FirstBlocking(Validate(Rules, fields, parses)) == FirstError(fields, parses)
  {
    RulesErrors(fields, parses);
    ClosedFirstError(fields, parses);
  }

  /** The verdict never depends on `state`: whatever value it has, missing
      or malformed included, the body is refused or accepted as it would be
      otherwise. */
  lemma StateNeverBlocks(fields: map<string, Value>, parses: DateParser, v: Value)
    ensures FirstBlocking(Validate(Rules, fields["state" := v], parses)) == FirstBlocking(Validate(Rules, fields, parses))
  {
    RulesFirstError(fields, parses);
    RulesFirstError(fields["state" := v], parses);
  }

  /** Each required attribute, when missing, is reported with its message. */
  lemma MissingReported(fields: map<string, Value>, parses: DateParser, attribute: string, message: string)
    requires (attribute, message) in {("fullname", FullnameRequired), ("birthdate", BirthdateRequired),
                                      ("state", StateRequired)}
    requires Lookup(fields, attribute) == Null
    ensures FieldError(attribute, Text(message)) in Validate(Rules, fields, parses)
  {
    RulesErrors(fields, parses);
  }

  /** `validateBooksArray`: a `books` value that is neither empty nor an
      array is reported, and an array or an empty value never is. */
  lemma BooksArrayReported(fields: map<string, Value>, parses: DateParser)
    ensures HasError(Validate(Rules, fields, parses), "books")
        <==> !IsEmpty(Lookup(fields, "books")) && !Lookup(fields, "books").List?
    ensures HasError(Validate(Rules, fields, parses), "books")
        ==> FieldError("books", Text(BooksNotArray)) in Validate(Rules, fields, parses)
  {
    var fullname, birthdate := Lookup(fields, "fullname"), Lookup(fields, "birthdate");
    var state, books := Lookup(fields, "state"), Lookup(fields, "books");
    var failing := !IsEmpty(books) && !books.List?;
    assert HasError(Validate(Rules, fields, parses), "books") <==> "books" in RunChecks(Checks(Rules), fields, parses).failed by {
      RunChecksDistinct(Checks(Rules), fields, parses);
    }
    assert "books" in RunChecks(Checks(Rules), fields, parses).failed <==> failing by {
      RulesFailed(fields, parses);
    }
    if failing {
      RulesErrors(fields, parses);
      ErrorIfMember(ErrorIf(!Present(fullname), "fullname", Text(FullnameRequired)) + ErrorIf(!Present(birthdate), "birthdate", Text(BirthdateRequired)) + ErrorIf(Present(birthdate) && !parses(Day, birthdate), "birthdate", InvalidFormat("birthdate")) + ErrorIf(!Present(state), "state", Text(StateRequired)) + ErrorIf(Present(fullname) && !fullname.Str?, "fullname", MustBeString("fullname")) + ErrorIf(Present(state) && !state.Str?, "state", MustBeString("state")), failing, "books", Text(BooksNotArray));
    }
  }

  /** `getAuthorById`: the author stored under `id`, provided it is ACTIVE. */
  function GetAuthorById(authors: map<Id, Author>, id: Id): (r: Option<Author>)
    ensures r.Some? <==> id in authors && authors[id].state == Active
    ensures r.Some? ==> r.value == authors[id]
  {
    if id in authors && IsActiveAuthor(authors[id]) then Some(authors[id]) else None
  }

  /** `getAuthors`: the ACTIVE authors, keyed by id. */
  function GetAuthors(authors: map<Id, Author>): (r: map<Id, Author>)
    ensures forall id :: id in r <==> id in authors && authors[id].state == Active
    ensures forall id :: id in r ==> r[id] == authors[id]
  {
    map id | id in authors && IsActiveAuthor(authors[id]) :: authors[id]
  }

  /** `existsFullname`: some ACTIVE author with this full name, or None when
      there is none (which one, when several match, is the store's choice). */
  method ExistsFullname(authors: map<Id, Author>, fullname: string) returns (r: Option<Author>)
    ensures r.Some? ==> exists id :: id in authors && authors[id] == r.value
    ensures r.Some? ==> r.value.fullname == Str(fullname) && r.value.state == Active
    ensures r.None? <==> forall id :: id in authors ==>
      !(authors[id].fullname == Str(fullname) && authors[id].state == Active)
  {
    if exists id :: id in authors && authors[id].fullname == Str(fullname) && IsActiveAuthor(authors[id]) {
      var id :| id in authors && authors[id].fullname == Str(fullname) && IsActiveAuthor(authors[id]);
      r := Some(authors[id]);
    } else {
      r := None;
    }
  }
}
