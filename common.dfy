/** Shared vocabulary of the services: identifiers, optional DTO fields, the
    HTTP-level error kinds the services throw, and the caller's roles. */
module Common {

  /** Primary keys are uuid strings generated by the store. */
  type Id = string

  datatype Option<T> = None | Some(value: T)

  /** The exceptions the services raise. `StoreRejected` stands for a save
      that the database refuses because of a column constraint. */
  datatype Error = NotFound | Conflict | StoreRejected

  datatype Result<T> = Ok(value: T) | Err(error: Error)

  /** JavaScript truthiness of an optional string DTO field: absent and ""
      are both falsy. */
  predicate Given(o: Option<string>) {
    o.Some? && o.value != ""
  }

  /** The authenticated caller, reduced to its role list; `None` is an
      anonymous request. */
  datatype User = User(roles: seq<string>)

  /** `isAdmin` in courses.service.ts and the negated
      `!user || user.roles.indexOf('admin') === -1` in categories.service.ts. */
  predicate IsAdmin(user: Option<User>) {
    user.Some? && "admin" in user.value.roles
  }
}
