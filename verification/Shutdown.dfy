/** The shared shutdown flag: it may be raised before any poll, and is never lowered. */
module Shutdown {
  import opened Prelude

  class ShutdownFlag {
    /** How many more polls still see the flag down; None if it is never raised. */
    var pollsLeft: Option<nat>

    constructor (pollsLeft: Option<nat>)
      ensures this.pollsLeft == pollsLeft
    {
      this.pollsLeft := pollsLeft;
    }

    method IsRequested() returns (raised: bool)
      modifies this
      ensures raised <==> old(pollsLeft) == Some(0)
      ensures pollsLeft == AfterPolls(old(pollsLeft), 1)
    {
      raised := pollsLeft == Some(0);
      if pollsLeft.Some? && !raised {
        pollsLeft := Some(pollsLeft.value - 1);
      }
    }
  }

  /** The polls left after `n` more of them. */
  function AfterPolls(left: Option<nat>, n: nat): Option<nat> {
    if left.None? then None else Some(SaturatingSub(left.value, n))
  }
}
