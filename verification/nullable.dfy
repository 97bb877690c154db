/** C pointers that may be NULL. A `char *` argument or result that can be
    NULL is an `Option<string>`; a NULL field of a table row is `None`. */
module Nullable {

  datatype Option<T> = None | Some(value: T)

  /** What code of the form `p ? p : fallback` reads: the pointed-to value,
      or `fallback` when the pointer is NULL. */
  function ValueOr<T>(p: Option<T>, fallback: T): T
  {
    if p.Some? then p.value else fallback
  }
}
