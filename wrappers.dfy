/** The optional value used where the server keeps `null` (no best match yet). */
module Wrappers {

  datatype Option<+T> = None | Some(value: T)
}
