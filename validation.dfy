/** The framework's rule-driven validation, as the models' `rules()` arrays use
    it, and the controllers' choice of the message they report.

    A rule names attributes and a validator. Rules run in the order written,
    and within a rule the attributes run in the order listed. A validator is
    skipped for an attribute that already has an error, and every validator
    except `required` is skipped for an empty value (null, "" or an empty
    array). `required` fails for null, an empty array, and a string that is
    empty once trimmed. The date parser is a parameter. */
module Validation {
  import opened Common

  /** The two date formats of the rules: 'php:Y' and 'php:Y-m-d'. */
  datatype DateFormat = Year | Day

  /** The date parser, left abstract: whether a value parses in a format. */
  type DateParser = (DateFormat, Value) -> bool

  datatype Validator =
    | Required(message: string)
    | IsString
    | IsDate(format: DateFormat)
    | IsArray(message: string)    // the inline validators validateAuthorsArray / validateBooksArray

  datatype Rule = Rule(attributes: seq<string>, validator: Validator)

  datatype FieldError = FieldError(attribute: string, message: Message)

  /** One validator applied to one attribute. */
  datatype Check = Check(attribute: string, validator: Validator)

  /** The (attribute, validator) pairs of a rule list in execution order. */
  function Checks(rules: seq<Rule>): seq<Check> {
    if rules == [] then []
    else
      var r := rules[|rules| - 1];
      Checks(rules[..|rules| - 1]) + seq(|r.attributes|, i requires 0 <= i < |r.attributes| => Check(r.attributes[i], r.validator))
  }

  predicate IsSpace(c: char) {
    c == ' ' || c == '\t' || c == '\n' || c == '\r' || c == '\0' || c == '\U{000B}'
  }

  /** A string that `trim` reduces to "". */
  predicate IsBlank(s: string) {
    forall i :: 0 <= i < |s| ==> IsSpace(s[i])
  }

  /** The framework's notion of an empty value, used to skip validators. */
  predicate IsEmpty(v: Value) {
    v == Null || v == Str("") || v == List([])
  }

  /** What `required` accepts. */
  predicate Present(v: Value) {
    match v
    case Null => false
    case Str(s) => !IsBlank(s)
    case List(items) => items != []
    case _ => true
  }

  predicate HasError(errors: seq<FieldError>, attribute: string) {
    exists i :: 0 <= i < |errors| && errors[i].attribute == attribute
  }

  /** The message one validator reports for value `v`, or None when it accepts it. */
  function Verdict(c: Check, v: Value, parses: DateParser): Option<Message> {
    match c.validator
    case Required(message) => if Present(v) then None else Some(Text(message))
    case IsString => if v.Str? then None else Some(MustBeString(c.attribute))
    case IsDate(format) => if parses(format, v) then None else Some(InvalidFormat(c.attribute))
    case IsArray(message) => if v.List? then None else Some(Text(message))
  }

  /** The errors found so far, in the order they were added, and the
      attributes that have one (the keys of the framework's error array). */
  datatype Outcome = Outcome(errors: seq<FieldError>, failed: set<string>)

  /** The error check `c` adds, given the attributes that already failed. */
  function Apply(failed: set<string>, c: Check, fields: map<string, Value>, parses: DateParser): Option<FieldError> {
    var v := Lookup(fields, c.attribute);
    if c.attribute in failed || (!c.validator.Required? && IsEmpty(v)) then None
    else match Verdict(c, v, parses)
      case None => None
      case Some(m) => Some(FieldError(c.attribute, m))
  }

  /** One check run on the outcome so far. */
  function Step(o: Outcome, c: Check, fields: map<string, Value>, parses: DateParser): Outcome {
    match Apply(o.failed, c, fields, parses)
    case None => o
    case Some(e) => Outcome(o.errors + [e], o.failed + {c.attribute})
  }

  /** The outcome of running `checks` in order, starting with no errors. */
  function RunChecks(checks: seq<Check>, fields: map<string, Value>, parses: DateParser): Outcome {
    if checks == [] then Outcome([], {})
    else Step(RunChecks(checks[..|checks| - 1], fields, parses), checks[|checks| - 1], fields, parses)
  }

  /** `validate()`: the errors of a rule list on a set of attribute values. */
  function Validate(rules: seq<Rule>, fields: map<string, Value>, parses: DateParser): seq<FieldError> {
    RunChecks(Checks(rules), fields, parses).errors
  }

  predicate DistinctAttributes(errors: seq<FieldError>) {
    forall i, j :: 0 <= i < j < |errors| ==> errors[i].attribute != errors[j].attribute
  }

  /** The failed set holds exactly the attributes that have an error. */
  ghost predicate Consistent(o: Outcome) {
    forall attribute :: attribute in o.failed <==> HasError(o.errors, attribute)
  }

  /** The failed set holds exactly the attributes of the errors, and an
      attribute is reported at most once, so the framework's per-attribute
      error lists hold one message each and their key order is the order of
      this list. */
  lemma {:induction false} RunChecksDistinct(checks: seq<Check>, fields: map<string, Value>, parses: DateParser)
    ensures Consistent(RunChecks(checks, fields, parses))
    ensures DistinctAttributes(RunChecks(checks, fields, parses).errors)
    decreases |checks|
  {
    if checks != [] {
      var o := RunChecks(checks[..|checks| - 1], fields, parses);
      RunChecksDistinct(checks[..|checks| - 1], fields, parses);
      var c := checks[|checks| - 1];
      assert RunChecks(checks, fields, parses) == Step(o, c, fields, parses);
      match Apply(o.failed, c, fields, parses)
      case None =>
        assert RunChecks(checks, fields, parses) == o;
      case Some(e) =>
        var errors := o.errors + [e];
        assert e.attribute == c.attribute && c.attribute !in o.failed;
        HasErrorAppendAll(o.errors, [e]);
        assert forall attribute :: HasError([e], attribute) <==> attribute == e.attribute by {
          assert [e][0] == e;
        }
        forall i, j | 0 <= i < j < |errors| ensures errors[i].attribute != errors[j].attribute {
          if j == |o.errors| {
            assert errors[j] == e && errors[i] == o.errors[i];
            assert HasError(o.errors, o.errors[i].attribute);
            assert Consistent(o);
          } else {
            assert errors[j] == o.errors[j] && errors[i] == o.errors[i];
            assert DistinctAttributes(o.errors);
          }
        }
    }
  }

  /** The error a check adds when `failing` holds, and nothing otherwise. */
  function ErrorIf(failing: bool, attribute: string, message: Message): seq<FieldError> {
    if failing then [FieldError(attribute, message)] else []
  }

  function FailedIf(failing: bool, attribute: string): set<string> {
    if failing then {attribute} else {}
  }

  /** `required` on an attribute without an error yet fails exactly when the
      value is not present. */
  lemma StepRequired(o: Outcome, attribute: string, message: string, fields: map<string, Value>, parses: DateParser)
    requires attribute !in o.failed
    ensures var failing := !Present(Lookup(fields, attribute));
      Step(o, Check(attribute, Required(message)), fields, parses)
      == Outcome(o.errors + ErrorIf(failing, attribute, Text(message)), o.failed + FailedIf(failing, attribute))
  {
  }

  /** `string` after `required` on the same attribute only looks at a
      present value, and fails on one that is not a string. */
  lemma StepString(o: Outcome, attribute: string, fields: map<string, Value>, parses: DateParser)
    requires attribute in o.failed <==> !Present(Lookup(fields, attribute))
    ensures var v := Lookup(fields, attribute);
      var failing := Present(v) && !v.Str?;
      Step(o, Check(attribute, IsString), fields, parses)
      == Outcome(o.errors + ErrorIf(failing, attribute, MustBeString(attribute)), o.failed + FailedIf(failing, attribute))
  {
    var v := Lookup(fields, attribute);
    assert Present(v) ==> !IsEmpty(v);
    if !Present(v) { assert o.failed + {} == o.failed; }
  }

  /** `date` after `required` on the same attribute only looks at a present
      value, and fails on one that does not parse. */
  lemma StepDate(o: Outcome, attribute: string, format: DateFormat, fields: map<string, Value>, parses: DateParser)
    requires attribute in o.failed <==> !Present(Lookup(fields, attribute))
    ensures var v := Lookup(fields, attribute);
      var failing := Present(v) && !parses(format, v);
      Step(o, Check(attribute, IsDate(format)), fields, parses)
      == Outcome(o.errors + ErrorIf(failing, attribute, InvalidFormat(attribute)), o.failed + FailedIf(failing, attribute))
  {
    var v := Lookup(fields, attribute);
    assert Present(v) ==> !IsEmpty(v);
    if !Present(v) { assert o.failed + {} == o.failed; }
  }

  /** The inline array check on an attribute without `required` only looks
      at a non-empty value, and fails on one that is not an array. */
  lemma StepArray(o: Outcome, attribute: string, message: string, fields: map<string, Value>, parses: DateParser)
    requires attribute !in o.failed
    ensures var v := Lookup(fields, attribute);
      var failing := !IsEmpty(v) && !v.List?;
      Step(o, Check(attribute, IsArray(message)), fields, parses)
      == Outcome(o.errors + ErrorIf(failing, attribute, Text(message)), o.failed + FailedIf(failing, attribute))
  {
  }

  /** The rule list one rule longer adds that rule's checks at the end. */
  lemma ChecksSnoc(rules: seq<Rule>, k: nat)
    requires k < |rules|
    ensures Checks(rules[..k + 1]) == Checks(rules[..k])
      + seq(|rules[k].attributes|, i requires 0 <= i < |rules[k].attributes| => Check(rules[k].attributes[i], rules[k].validator))
  {
    assert rules[..k + 1][..k] == rules[..k];
  }

  /** The check list one check longer runs that check last. */
  lemma RunChecksSnoc(checks: seq<Check>, k: nat, fields: map<string, Value>, parses: DateParser)
    requires k < |checks|
    ensures RunChecks(checks[..k + 1], fields, parses) == Step(RunChecks(checks[..k], fields, parses), checks[k], fields, parses)
  {
    assert checks[..k + 1][..k] == checks[..k];
  }

  /** Running more checks only adds errors at the end. */
  lemma {:induction false} RunChecksPrefix(checks: seq<Check>, k: nat, fields: map<string, Value>, parses: DateParser)
    requires k <= |checks|
    ensures RunChecks(checks[..k], fields, parses).errors <= RunChecks(checks, fields, parses).errors
    decreases |checks| - k
  {
    if k < |checks| {
      var init := checks[..|checks| - 1];
      assert init[..k] == checks[..k];
      RunChecksPrefix(init, k, fields, parses);
    } else {
      assert checks[..k] == checks;
    }
  }

  lemma HasErrorAppend(a: seq<FieldError>, b: seq<FieldError>, attribute: string)
    ensures HasError(a + b, attribute) <==> HasError(a, attribute) || HasError(b, attribute)
  {
    if HasError(a, attribute) {
      var i :| 0 <= i < |a| && a[i].attribute == attribute;
      assert (a + b)[i] == a[i];
    }
    if HasError(b, attribute) {
      var i :| 0 <= i < |b| && b[i].attribute == attribute;
      assert (a + b)[|a| + i] == b[i];
    }
    if HasError(a + b, attribute) {
      var i :| 0 <= i < |a + b| && (a + b)[i].attribute == attribute;
      if i >= |a| { assert b[i - |a|] == (a + b)[i]; } else { assert a[i] == (a + b)[i]; }
    }
  }

  /** HasErrorAppend for every attribute at once. */
  lemma HasErrorAppendAll(a: seq<FieldError>, b: seq<FieldError>)
    ensures forall attribute :: HasError(a + b, attribute) <==> HasError(a, attribute) || HasError(b, attribute)
  {
    forall attribute ensures HasError(a + b, attribute) <==> HasError(a, attribute) || HasError(b, attribute) {
      HasErrorAppend(a, b, attribute);
    }
  }

  /** The message a controller reports: the first error not on `state`. */
  function FirstBlocking(errors: seq<FieldError>): Option<Message> {
    if errors == [] then None
    else if errors[0].attribute != "state" then Some(errors[0].message)
    else FirstBlocking(errors[1..])
  }

  /** The first blocking error of a concatenation lies in the first part
      when the first part has one. */
  lemma {:induction false} FirstBlockingAppend(a: seq<FieldError>, b: seq<FieldError>)
    ensures FirstBlocking(a + b) == if FirstBlocking(a).Some? then FirstBlocking(a) else FirstBlocking(b)
    decreases |a|
  {
    if a == [] {
      assert a + b == b;
    } else {
      assert (a + b)[1..] == a[1..] + b;
      FirstBlockingAppend(a[1..], b);
    }
  }

  /** One more check's error: it is the reported one only when nothing
      before it was, and it is not on `state`. */
  lemma FirstBlockingSnoc(a: seq<FieldError>, failing: bool, attribute: string, message: Message)
    ensures FirstBlocking(a + ErrorIf(failing, attribute, message))
         == if FirstBlocking(a).Some? then FirstBlocking(a)
            else if failing && attribute != "state" then Some(message) else None
  {
    FirstBlockingAppend(a, ErrorIf(failing, attribute, message));
    if failing {
      assert ErrorIf(failing, attribute, message)[1..] == [];
    }
  }

  /** The error of a failing last check is among the errors. */
  lemma ErrorIfMember(a: seq<FieldError>, failing: bool, attribute: string, message: Message)
    requires failing
    ensures FieldError(attribute, message) in a + ErrorIf(failing, attribute, message)
  {
    assert (a + ErrorIf(failing, attribute, message))[|a|] == FieldError(attribute, message);
  }

  /** FirstBlocking is None exactly when every error is on `state`, and
      otherwise the message of the first error on another attribute. */
  lemma {:induction false} FirstBlockingSpec(errors: seq<FieldError>)
    ensures FirstBlocking(errors).None? <==> forall i :: 0 <= i < |errors| ==> errors[i].attribute == "state"
    ensures FirstBlocking(errors).Some? ==> exists i ::
              && 0 <= i < |errors|
              && errors[i].attribute != "state"
              && errors[i].message == FirstBlocking(errors).value
              && forall j :: 0 <= j < i ==> errors[j].attribute == "state"
    decreases |errors|
  {
    if errors != [] && errors[0].attribute == "state" {
      FirstBlockingSpec(errors[1..]);
      if FirstBlocking(errors).Some? {
        var i :| 0 <= i < |errors[1..]| && errors[1..][i].attribute != "state"
          && errors[1..][i].message == FirstBlocking(errors).value
          && forall j :: 0 <= j < i ==> errors[1..][j].attribute == "state";
        assert errors[i + 1] == errors[1..][i];
        assert forall j :: 0 <= j < i + 1 ==> errors[j].attribute == "state" by {
          forall j | 0 <= j < i + 1 ensures errors[j].attribute == "state" {
            if j > 0 { assert errors[j] == errors[1..][j - 1]; }
          }
        }
      } else {
        forall i | 0 <= i < |errors| ensures errors[i].attribute == "state" {
          if i > 0 { assert errors[i] == errors[1..][i - 1]; }
        }
      }
    }
  }

  /** The controllers' scan of `$model->errors`: return the first message of
      the first attribute other than `state`. */
  method ScanErrors(errors: seq<FieldError>) returns (blocking: Option<Message>)
    ensures blocking == FirstBlocking(errors)
  {
    var i := 0;
    while i < |errors|
      invariant 0 <= i <= |errors|
      invariant FirstBlocking(errors) == FirstBlocking(errors[i..])
    {
      assert errors[i..][1..] == errors[i + 1..];
      if errors[i].attribute != "state" {
        return Some(errors[i].message);
      }
      i := i + 1;
    }
    return None;
  }
}
