/** Shared vocabulary of the backend model: nullable values, JavaScript
    truthiness of request fields, timestamps and the HTTP status codes the
    route handlers answer with. */
module Common {

  /** A nullable column or an optional request field (`null`/`undefined` is `None`). */
  datatype Option<+T> = None | Some(value: T)

  /** JavaScript truthiness of a string-valued field: `null`, `undefined`
      and the empty string are falsy, every other string is truthy. */
  predicate Truthy(v: Option<string>)
  {
    v.Some? && v.value != ""
  }

  /** A point in time as stored in `historiales.fecha` (milliseconds). */
  type Timestamp = int

  const Ok: int := 200
  const Created: int := 201
  const BadRequest: int := 400
  const Unauthorized: int := 401
  const NotFound: int := 404
}
