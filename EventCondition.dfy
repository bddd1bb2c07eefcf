/**
 * The event latch: a condition that becomes true when its event fires and
 * stays true, across any number of tests, until it is reset.
 */
module EventConditions {
  import opened Actions

  class EventCondition {
    var isTriggered: bool
    const conditionEvent: ActionHandle

    /**
     * A new latch is untriggered. Subscribing `SetTrigger` to the event is a
     * call into the event library and is not modelled; the event must exist.
     */
    constructor (conditionEvent: ActionHandle)
      requires conditionEvent != Null
      ensures this.conditionEvent == conditionEvent
      ensures !isTriggered
    {
      this.conditionEvent := conditionEvent;
      isTriggered := false;
    }

    /** Reads the flag without clearing it. */
    method TestCondition() returns (r: bool)
      ensures r == isTriggered
    {
      r := isTriggered;
    }

    /** Clears the flag until the next `SetTrigger`. */
    method Reset()
      modifies this`isTriggered
      ensures !isTriggered
    {
      isTriggered := false;
    }

    /** The subscribed listener: sets the flag whatever it was. */
    method SetTrigger()
      modifies this`isTriggered
      ensures isTriggered
    {
      isTriggered := true;
    }

    /** The event firing `n` times: the flag is set iff it was set or the event fired at all. */
    method Fire(n: nat)
      modifies this`isTriggered
      ensures isTriggered == (old(isTriggered) || n > 0)
    {
      var k := 0;
      while k < n
        invariant 0 <= k <= n
        invariant isTriggered == (old(isTriggered) || k > 0)
      {
        SetTrigger();
        k := k + 1;
      }
    }
  }

  /**
   * The latch's life cycle as a client sees it: untriggered when new, true
   * after the event fires (once or many times), still true when tested
   * again, false after a reset and true again once the event fires anew.
   */
  method LatchLifecycle(n: nat) returns (atStart: bool, fired: bool, again: bool, afterReset: bool, refired: bool)
    requires n >= 1
    ensures !atStart && fired && again && !afterReset && refired
  {
    var latch := new EventCondition(Handle(0));
    atStart := latch.TestCondition();
    latch.Fire(n);
    fired := latch.TestCondition();
    again := latch.TestCondition();
    latch.Reset();
    afterReset := latch.TestCondition();
    latch.SetTrigger();
    refired := latch.TestCondition();
  }
}
