/** Request bodies as the user service sees them: absent, or a JSON object
    whose field values are JSON scalars. */
module Json {

  datatype Option<+T> = None | Some(value: T)

  /** A JSON scalar that a client may send as a field value. The service
      stores whatever value it receives, so `name` and `email` are values of
      this type rather than strings. */
  datatype Value = Null | Bool(b: bool) | Number(n: int) | Str(s: string)

  type Object = map<string, Value>

  /** The parsed body of a request (Flask's `request.json`): None when the
      request carries no JSON body, otherwise the decoded object. */
  type Body = Option<Object>

  /** Python truthiness of the body: `not request.json` holds both for a
      missing body and for the empty object `{}`. */
  predicate IsTruthy(body: Body)
  {
    body.Some? && |body.value| > 0
  }

  /** The body is an object that carries `field` (with any value, even null
      or the empty string). */
  predicate Has(body: Body, field: string)
  {
    body.Some? && field in body.value
  }
}
