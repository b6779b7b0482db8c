/** Values shared by every layer of the catalogue: identifiers, decoded JSON
    values, request bodies, HTTP verbs and response messages. */
module Common {

  datatype Option<T> = None | Some(value: T)

  /** The `_id` of a document in any collection, taken as one abstract string type. */
  type Id = string

  /** A decoded JSON value as a controller reads it from the request body.
      `Null` stands for a key that is absent as well as for JSON null: every
      read goes through `?? null`, and the validators see an unset attribute
      as null. A JSON array is only modelled as a list of id strings. */
  datatype Value =
    | Null
    | Str(s: string)
    | Num(n: int)
    | Bool(b: bool)
    | List(items: seq<Id>)
    | Obj

  /** A request body: the `_id` field (None when absent or null) and the
      other attributes by name. */
  datatype Body = Body(id: Option<string>, fields: map<string, Value>)

  /** The value of attribute `name`; an absent attribute reads as Null. */
  function Lookup(fields: map<string, Value>, name: string): Value {
    if name in fields then fields[name] else Null
  }

  function Field(body: Body, name: string): Value {
    Lookup(body.fields, name)
  }

  /** PHP truthiness of an optional string: null, "" and "0" are falsy. */
  predicate Truthy(s: Option<string>) {
    s.Some? && s.value != "" && s.value != "0"
  }

  datatype Verb = Get | Head | Post | Put | Patch | Delete

  /** A message the client receives: a literal text from the source, or one
      of the two framework messages whose wording the framework chooses. */
  datatype Message =
    | Text(text: string)
    | MustBeString(attribute: string)
    | InvalidFormat(attribute: string)
}
