/** The JavaScript `T | null` / `T | undefined` of the source, as a value. */
module Wrappers {

  datatype Option<+T> = None | Some(value: T)

  /** `v ?? fallback`: the value if present, the fallback otherwise. */
  function GetOr<T>(v: Option<T>, fallback: T): T
  {
    if v.Some? then v.value else fallback
  }
}
