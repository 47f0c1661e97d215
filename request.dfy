/**
 * Decoded JSON request bodies and the field constraints the controllers declare
 * with `Assert\Collection` (NotBlank, Length, NotNull, Type, Email, Optional).
 */
module Request {

  /** A decoded JSON field value (numbers, arrays and objects are not modelled). */
  datatype Json = JNull | JBool(b: bool) | JStr(s: string)

  /** A decoded JSON object body: field name to value. */
  type Body = map<string, Json>

  /** PHP's `(string)` cast of a value, which the Length and Email checks apply. */
  function AsString(v: Json): string
  {
    match v
    case JNull => ""
    case JBool(b) => if b then "1" else ""
    case JStr(s) => s
  }

  /** `NotBlank`: null, false and the empty string are blank; white space is not. */
  predicate NotBlank(v: Json)
  {
    v != JNull && v != JBool(false) && v != JStr("")
  }

  lemma NotBlankIsNonEmptyText(v: Json)
    ensures NotBlank(v) <==> AsString(v) != ""
  {
  }

  /** `Length(max: n)`, counted in characters; null is not checked. */
  predicate MaxLength(v: Json, n: nat)
  {
    v == JNull || |AsString(v)| <= n
  }

  /** `Length(min: n)`, counted in characters; null is not checked. */
  predicate MinLength(v: Json, n: nat)
  {
    v == JNull || |AsString(v)| >= n
  }

  /**
   * `Email`; null and the empty string are not checked. The address syntax itself
   * is the validator's, passed in as `isEmail`.
   */
  predicate EmailFormat(v: Json, isEmail: string -> bool)
  {
    v == JNull || AsString(v) == "" || isEmail(AsString(v))
  }

  /**
   * The `Collection` shape: every required field is present and no field outside
   * `required` and `optional` is (extra fields are refused by default).
   */
  predicate CollectionShape(body: Body, required: set<string>, optional: set<string>)
  {
    required <= body.Keys && body.Keys <= required + optional
  }

  /** The string a field holds, when it is present and a JSON string. */
  predicate IsText(body: Body, field: string)
  {
    field in body && body[field].JStr?
  }
}
