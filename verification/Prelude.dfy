/** Datatypes shared by the modules. */
module Prelude {
  datatype Option<+T> = None | Some(value: T)

  datatype Result<+T, +E> = Ok(value: T) | Err(error: E)

  /** The more recent of two optional times, absence counting as oldest. */
  function Later(a: Option<nat>, b: Option<nat>): (t: Option<nat>)
    ensures t == a || t == b
    ensures t.None? <==> a.None? && b.None?
    ensures a.Some? ==> t.value >= a.value
    ensures b.Some? ==> t.value >= b.value
  {
    if a.None? then b else if b.None? || b.value <= a.value then a else b
  }
}
