/** Types shared by both services: identifiers, instants and an optional value. */
module Common {

  /** A GUID. The all-zero GUID (`Guid.Empty`) is the identifier 0. */
  type Id = nat

  const EmptyId: Id := 0

  /** A point in time (`DateTime`), as a count of seconds. */
  type Instant = int

  /** A nullable value: `null` is `None`. */
  datatype Option<+T> = None | Some(value: T)
}
