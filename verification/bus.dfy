/** The shared publish/subscribe bus, reduced to the log of what was
    published on it. `up` says whether the bus currently accepts publications;
    a publish while it is down fails and leaves no trace. */
module PubSub {
  import opened Events

  class Bus {
    var up: bool
    var log: seq<Publication>

    constructor ()
      ensures up && log == []
    {
      up := true;
      log := [];
    }

    /** The log after publishing `p`. */
    function After(p: Publication): seq<Publication>
      reads this
    {
      if up then log + [p] else log
    }

    method Publish(channel: string, env: Envelope) returns (failed: bool)
      modifies this`log
      ensures failed == !up
      ensures log == old(After(Publication(channel, env)))
    {
      failed := !up;
      if up {
        log := log + [Publication(channel, env)];
      }
    }
  }
}
