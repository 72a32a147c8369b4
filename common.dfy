/** Values shared by every part of the model. */
module Common {

  datatype Option<+T> = None | Some(value: T)

  /** Timestamps are opaque instants; only their order is used. */
  type Time = int

  /** JavaScript truthiness of an optional request-body string:
      an absent value (undefined) and the empty string are both falsy. */
  predicate Truthy(s: Option<string>)
  {
    s.Some? && s.value != ""
  }

  /** How the store treats a column in an update: an absent (undefined)
      value leaves the column as it was. */
  function Patch<T>(current: T, given: Option<T>): T
  {
    match given
    case None => current
    case Some(v) => v
  }

  /** The same for a nullable column. */
  function PatchOptional<T>(current: Option<T>, given: Option<T>): Option<T>
  {
    if given.Some? then given else current
  }
}
