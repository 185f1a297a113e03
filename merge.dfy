/** The partial-update merge shared by the user and film updates: given fields replace stored ones. */
module Merging {
  import opened Errors

  /**
   * The field-by-field merge of a partial update: a field changes only when a new value is
   * given and differs from the stored one, so the result is the given value if there is one.
   */
  function Merged<T(==)>(stored: T, incoming: Option<T>): (r: T)
    ensures incoming.None? ==> r == stored
    ensures incoming.Some? ==> r == incoming.value
  {
    if incoming.Some? && incoming.value != stored then incoming.value else stored
  }

  /** The same merge for a field that may itself be unset. */
  function MergedOptional<T(==)>(stored: Option<T>, incoming: Option<T>): (r: Option<T>)
    ensures incoming.None? ==> r == stored
    ensures incoming.Some? ==> r == incoming
  {
    if incoming.Some? && incoming != stored then incoming else stored
  }
}
