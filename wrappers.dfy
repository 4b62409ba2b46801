/** The optional value used in place of Go's nil results and "ok" flags. */
module Wrappers {

  datatype Option<+T> = None | Some(value: T)

  /** Moves an optional position `d` places further right. */
  function Shift(o: Option<nat>, d: nat): Option<nat>
  {
    match o
    case None => None
    case Some(i) => Some(i + d)
  }
}
