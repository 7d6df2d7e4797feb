/** Calls to the outside world. */
module Faults {

  /** A call that may fail, unless the world is known to be reliable. */
  method Attempt(reliable: bool) returns (ok: bool)
    ensures reliable ==> ok
  {
    ok := *;
    if reliable { ok := true; }
  }
}
