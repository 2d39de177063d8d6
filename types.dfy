/** Value types shared by every part of the knowledge-store kernel. */
module Types {

  /** A value that may be missing (Python's `None`). */
  datatype Option<T> = None | Some(value: T) {
    function GetOr(default: T): T {
      if Some? then value else default
    }
  }

  /** The result of an operation that either succeeds or raises `error`. */
  datatype Outcome<E> = Ok | Err(error: E)

  /** Opaque identifier of a playbook entry (a UUID string in the system). */
  type EntryId = string

  /** Entry metadata: an open key/value map, stored and returned as-is. */
  type Metadata = map<string, string>

  /** A text embedding: a vector of reals produced by an external model. */
  type Embedding = seq<real>

  /** The text-generation service: one prompt in, one text out. */
  type Generate = string -> string
}
