/** Types shared by every controller: optional values, the caller's role,
    and the (status, payload) reply a handler sends back. */
module Common {

  /** An optional value (a missing request field, a query that found nothing). */
  datatype Option<T> = None | Some(value: T) {
    function GetOr(default: T): T {
      match this
      case Some(v) => v
      case None => default
    }
  }

  /** The `role` enum of the User schema. */
  datatype Role = User | Admin

  /** The authenticated caller that the auth guard attaches to the request. */
  datatype Caller = Caller(id: int, role: Role)

  /** HTTP statuses the handlers use. */
  const OK: int := 200
  const Created: int := 201
  const BadRequest: int := 400
  const Unauthorized: int := 401
  const Forbidden: int := 403
  const NotFound: int := 404

  /** The JSON body of a reply: one record, a list of records, a `{ message }` object,
      or a `{ message, <record> }` object. */
  datatype Payload<T> = Item(value: T) | Items(values: seq<T>) | Message(text: string)
                      | Saved(text: string, value: T)

  datatype Reply<T> = Reply(status: int, body: Payload<T>)

  /** JavaScript numbers (prices, discounts) are kept opaque: no arithmetic is done on them. */
  type Number = real
}
