/** The event of the coroutine pool: a timer that never expires, so that its pending
    handlers complete only by cancellation, oldest first. It has no memory. */
module Event {
  import opened Counting

  class Event {
    var pending: seq<nat>

    constructor ()
      ensures pending == []
    {
      pending := [];
    }

    method AsyncWait(handler: nat)
      modifies this
      ensures pending == old(pending) + [handler]
    {
      pending := pending + [handler];
    }

    /** Completes the oldest wait; without one it changes nothing. */
    method NotifyOne() returns (woken: Option<nat>)
      modifies this
      ensures if old(pending) == [] then woken == None && pending == []
              else woken == Some(old(pending)[0]) && pending == old(pending)[1..]
    {
      if pending == [] {
        return None;
      }
      woken := Some(pending[0]);
      pending := pending[1..];
    }
  }
}
