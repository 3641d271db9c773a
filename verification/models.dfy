/** The stored records, as the handlers read and write them. */
module Models {
  import opened Requests

  /** An event: how many consecutive submissions of one category it stands for,
      its owner and its category. Timestamps are not fields: a store keeps its
      events in ascending `updatedAt` order instead. */
  datatype Event = Event(id: Id, user: Id, category: Id, count: nat)

  /** A category as the handlers see it. `code` and `context` are `None` when
      they were never set. */
  datatype Category = Category(
    id: Id,
    user: Id,
    name: string,
    start: bool,
    code: Option<string>,
    context: Option<string>)

  /** A registered user with its local credential. The password is kept as
      supplied: hashing it before a save happens in a hook outside this model. */
  datatype User = User(
    id: Id,
    displayName: string,
    timeZone: string,
    email: string,
    password: string,
    verified: bool)
}
