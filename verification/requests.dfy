/** Request fields, JavaScript truthiness and handler responses, shared by the
    three handler modules. */
module Requests {

  /** A request field: `None` stands for a field the client left out or sent as
      a falsy JavaScript value (`undefined`, `null`, `false`, `0`). */
  datatype Option<+T> = None | Some(value: T)

  /** Identifiers (Mongo ObjectIds) are abstracted as naturals. */
  type Id = nat

  /** JavaScript truthiness of an optional string field: absent and `""` are
      both falsy. */
  predicate Truthy(s: Option<string>)
  {
    s.Some? && s.value != ""
  }

  /** The first HTTP response a handler sends: a success with its status and
      body, a JSON `{error}` body with its status, or an error handed to
      Express's `next(err)` without a JSON body. */
  datatype Response<+T> =
    | Ok(status: nat, body: T)
    | Err(status: nat, error: string)
    | Forward(cause: string)
}
