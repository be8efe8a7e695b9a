/** The two request-body schemas: `{name}` for POST /participants and
    `{to, text, type}` for POST /messages, validated without stopping at the
    first error. */
module Schemas {
  import opened Text
  import opened Messages

  /** A parsed JSON request body, as far as validation looks into it. */
  datatype Json = JString(s: string) | JObject(fields: map<string, Json>) | JOther

  /** One reported problem, tied to the key it is about. */
  datatype ValidationError =
    | NotAnObject               // the body is not a JSON object
    | Required(key: string)     // a required key is absent
    | NotAString(key: string)   // a value that is not a string
    | Empty(key: string)        // a string that is empty once trimmed
    | NotAllowed(key: string)   // a value outside the schema's list of allowed values
    | UnknownKey(key: string)   // a key the schema does not declare

  datatype Validated<T> = Accepted(value: T) | Rejected(errors: set<ValidationError>)

  /** A message body that passed validation: `to` and `text` trimmed, `type` parsed. */
  datatype Draft = Draft(to: string, text: string, kind: Kind)

  const UserKeys: set<string> := {"name"}
  const MessageKeys: set<string> := {"to", "text", "type"}

  /** `key` holds a string that is not all whitespace. */
  predicate IsNonBlankString(fields: map<string, Json>, key: string) {
    key in fields && fields[key].JString? && !AllWhitespace(fields[key].s)
  }

  /** The keys that the errors in `errors` are about. */
  function ErrorKeys(errors: set<ValidationError>): set<string> {
    set e | e in errors && !e.NotAnObject? :: e.key
  }

  /** Joi.string().min(1).trim().required() for one key. */
  function TrimmedStringErrors(fields: map<string, Json>, key: string): set<ValidationError> {
    if key !in fields then {Required(key)}
    else if !fields[key].JString? then {NotAString(key)}
    else if Trim(fields[key].s) == [] then {Empty(key)}
    else {}
  }

  /** The `type` values a client may send, and the kind each one stands for. */
  function KindOf(v: Json): Option<Kind> {
    if v == JString("message") then Some(Chat)
    else if v == JString("private_message") then Some(PrivateChat)
    else None
  }

  /** Joi.string().valid("message", "private_message").required() for `type`:
      a value outside the list is refused, and since every error is collected
      the string base check still runs on it, adding its own error for a
      value that is not a string or is the empty string. */
  function TypeErrors(fields: map<string, Json>): set<ValidationError> {
    if "type" !in fields then {Required("type")}
    else if KindOf(fields["type"]).Some? then {}
    else if !fields["type"].JString? then {NotAllowed("type"), NotAString("type")}
    else if fields["type"].s == "" then {NotAllowed("type"), Empty("type")}
    else {NotAllowed("type")}
  }

  /** Joi.object() refuses every key its schema does not declare. */
  function UnknownKeyErrors(fields: map<string, Json>, known: set<string>): set<ValidationError> {
    set k | k in fields.Keys - known :: UnknownKey(k)
  }

  /** Every problem the schema of POST /participants finds in the fields of an object body. */
  function UserErrors(fields: map<string, Json>): set<ValidationError> {
    TrimmedStringErrors(fields, "name") + UnknownKeyErrors(fields, UserKeys)
  }

  /** Every problem the schema of POST /messages finds in the fields of an object body. */
  function MessageErrors(fields: map<string, Json>): set<ValidationError> {
    TrimmedStringErrors(fields, "to") + TrimmedStringErrors(fields, "text")
    + TypeErrors(fields) + UnknownKeyErrors(fields, MessageKeys)
  }

  /** The schema of POST /participants. */
  function ValidateUser(body: Json): (r: Validated<string>)
    ensures r.Accepted? <==> body.JObject? && IsNonBlankString(body.fields, "name") && body.fields.Keys <= UserKeys
    ensures r.Accepted? ==> r.value == Trim(body.fields["name"].s) && IsTrimmedNonEmpty(r.value)
    ensures !body.JObject? ==> r == Rejected({NotAnObject})
    ensures r.Rejected? ==> r.errors != {}
    ensures r.Rejected? && body.JObject? ==>
              ErrorKeys(r.errors)
              == (if IsNonBlankString(body.fields, "name") then {} else {"name"})
                 + (body.fields.Keys - UserKeys)
  {
    match body
    case JObject(fields) =>
      UserErrorsCheck(fields);
      if UserErrors(fields) == {} then Accepted(Trim(fields["name"].s)) else Rejected(UserErrors(fields))
    case _ => Rejected({NotAnObject})
  }

  /** What the schema of POST /messages accepts: `to` and `text` are non-blank
      strings, `type` is one of the allowed values, and no other key is present. */
  predicate MessageFieldsValid(fields: map<string, Json>) {
    && IsNonBlankString(fields, "to") && IsNonBlankString(fields, "text")
    && "type" in fields && KindOf(fields["type"]).Some?
    && fields.Keys <= MessageKeys
  }

  /** The schema of POST /messages. */
  function ValidateMessage(body: Json): (r: Validated<Draft>)
    ensures r.Accepted? <==> body.JObject? && MessageFieldsValid(body.fields)
    ensures r.Accepted? ==>
              && r.value.to == Trim(body.fields["to"].s)
              && r.value.text == Trim(body.fields["text"].s)
              && KindOf(body.fields["type"]) == Some(r.value.kind)
    ensures r.Accepted? ==>
              IsTrimmedNonEmpty(r.value.to) && IsTrimmedNonEmpty(r.value.text) && r.value.kind != StatusNotice
    ensures !body.JObject? ==> r == Rejected({NotAnObject})
    ensures r.Rejected? ==> r.errors != {}
    ensures r.Rejected? && body.JObject? ==> r.errors == MessageErrors(body.fields)
  {
    match body
    case JObject(fields) =>
      MessageErrorsCheck(fields);
      if MessageErrors(fields) == {} then
        Accepted(Draft(Trim(fields["to"].s), Trim(fields["text"].s), KindOf(fields["type"]).value))
      else
        Rejected(MessageErrors(fields))
    case _ => Rejected({NotAnObject})
  }

  /** A client may send each kind except a status notice, by its stored name. */
  lemma KindOfName(k: Kind)
    ensures KindOf(JString(KindName(k))) == if k == StatusNotice then None else Some(k)
  {
  }

  /** A message body that claims to be a status notice is refused for its `type`. */
  lemma StatusTypeRejected(fields: map<string, Json>)
    requires "type" in fields && fields["type"] == JString("status")
    ensures ValidateMessage(JObject(fields)).Rejected?
    ensures NotAllowed("type") in ValidateMessage(JObject(fields)).errors
  {
  }

  /** The user schema finds nothing exactly when `name` is a non-blank string and no other key is present. */
  lemma UserErrorsCheck(fields: map<string, Json>)
    ensures UserErrors(fields) == {} <==> IsNonBlankString(fields, "name") && fields.Keys <= UserKeys
    ensures ErrorKeys(UserErrors(fields))
            == (if IsNonBlankString(fields, "name") then {} else {"name"}) + (fields.Keys - UserKeys)
  {
    ErrorKeysOfUnion(TrimmedStringErrors(fields, "name"), UnknownKeyErrors(fields, UserKeys));
    TrimmedStringCheck(fields, "name");
    UnknownKeys(fields, UserKeys);
  }

  /** The message schema finds nothing exactly when `to` and `text` are non-blank
      strings, `type` is an allowed value and no other key is present; each
      error names the key it is about. */
  lemma MessageErrorsCheck(fields: map<string, Json>)
    ensures MessageErrors(fields) == {} <==> MessageFieldsValid(fields)
    ensures ErrorKeys(MessageErrors(fields))
            == (if IsNonBlankString(fields, "to") then {} else {"to"})
               + (if IsNonBlankString(fields, "text") then {} else {"text"})
               + (if "type" in fields && KindOf(fields["type"]).Some? then {} else {"type"})
               + (fields.Keys - MessageKeys)
  {
    var toErrors, textErrors := TrimmedStringErrors(fields, "to"), TrimmedStringErrors(fields, "text");
    var typeErrors, unknown := TypeErrors(fields), UnknownKeyErrors(fields, MessageKeys);
    ErrorKeysOfUnion(toErrors, textErrors);
    ErrorKeysOfUnion(toErrors + textErrors, typeErrors);
    ErrorKeysOfUnion(toErrors + textErrors + typeErrors, unknown);
    TrimmedStringCheck(fields, "to");
    TrimmedStringCheck(fields, "text");
    TypeCheck(fields);
    UnknownKeys(fields, MessageKeys);
    assert MessageErrors(fields) == {} <==> toErrors == {} && textErrors == {} && typeErrors == {} && unknown == {};
  }

  lemma TrimmedStringCheck(fields: map<string, Json>, key: string)
    ensures TrimmedStringErrors(fields, key) == {} <==> IsNonBlankString(fields, key)
    ensures ErrorKeys(TrimmedStringErrors(fields, key)) == if IsNonBlankString(fields, key) then {} else {key}
  {
  }

  /** A `type` outside the allowed list always draws the `valid()` error, and
      a second error exactly when it is not a string or is empty. */
  lemma TypeErrorsOfDisallowed(fields: map<string, Json>)
    requires "type" in fields && KindOf(fields["type"]).None?
    ensures NotAllowed("type") in TypeErrors(fields)
    ensures NotAString("type") in TypeErrors(fields) <==> !fields["type"].JString?
    ensures Empty("type") in TypeErrors(fields) <==> fields["type"] == JString("")
    ensures |TypeErrors(fields)| == if fields["type"].JString? && fields["type"].s != "" then 1 else 2
  {
  }

  lemma TypeCheck(fields: map<string, Json>)
    ensures TypeErrors(fields) == {} <==> "type" in fields && KindOf(fields["type"]).Some?
    ensures ErrorKeys(TypeErrors(fields)) == if TypeErrors(fields) == {} then {} else {"type"}
  {
  }

  lemma ErrorKeysOfUnion(a: set<ValidationError>, b: set<ValidationError>)
    ensures ErrorKeys(a + b) == ErrorKeys(a) + ErrorKeys(b)
  {
  }

  lemma UnknownKeys(fields: map<string, Json>, known: set<string>)
    ensures ErrorKeys(UnknownKeyErrors(fields, known)) == fields.Keys - known
    ensures UnknownKeyErrors(fields, known) == {} <==> fields.Keys <= known
  {
    forall k | k in fields.Keys - known ensures UnknownKey(k) in UnknownKeyErrors(fields, known) {
    }
    if !(fields.Keys <= known) {
      var k :| k in fields.Keys && k !in known;
      assert UnknownKey(k) in UnknownKeyErrors(fields, known);
    }
  }
}
