/**
 * Conventions shared by the three document schemas: references are ids,
 * and a `required` string or reference is one that is given and not empty.
 */
module Schema {
  import opened Wrappers

  /** A document id (a user, a game, or a chat room, which is a game id). */
  type Id = string

  /** The store's `required` check on a string or reference field. */
  predicate Present(o: Option<string>)
  {
    o.Some? && o.value != ""
  }

  /** A rejected save: the names of the fields that failed validation. */
  datatype ValidationError = ValidationError(paths: set<string>)
}
