/** How one storage step can end. */
module Faults {
  /** A crash is an outcome too: whoever sees one returns at once. */
  datatype Status = Done | Failed | Crashed

  /** Whether the next step works, fails or crashes, and if it does not work, whether its effect happened. */
  method Fate(healthy: bool) returns (s: Status, effect: bool)
    ensures s.Done? ==> effect
    ensures healthy ==> s.Done?
  {
    s, effect := Done, true;
    if !healthy {
      s, effect := *, *;
      effect := effect || s.Done?;
    }
  }
}
