/**
 * The state machine context: three slots holding the last, the current and
 * the next state, and the notification step that advances them.
 *
 * A state's own reaction to an event (ObserveEvent) is code outside this
 * model: its result is a parameter of Notify here, and whatever the state
 * does to the context while observing is not modelled. Locks always
 * succeed.
 */
module StateContext {

  /**
   * Event status codes. Only STATUS_ERR, the value Notify reports when it
   * cannot advance, is fixed here; every other value comes from the state
   * that observed the event.
   */
  type Status = int
  const STATUS_ERR: Status := 0

  /** A state of the machine; only its identifier is used by the context. */
  class State {
    const id: nat

    constructor (id: nat)
      ensures this.id == id
    {
      this.id := id;
    }
  }

  /** The identifier reported for a slot: 0 for an empty slot, else the state's own. */
  function IdOf(s: State?): (id: nat)
    ensures s == null ==> id == 0
    ensures s != null ==> id == s.id
  {
    if s == null then 0 else s.id
  }

  /** The three slots of a context: last, current and next. */
  datatype Slots = Slots(last: State?, current: State?, next: State?)

  /** A successful notification: current moves to last, next to current, and next stays. */
  function Advance(s: Slots): (r: Slots)
    requires s.next != null
    ensures r.current == r.next != null
  {
    Slots(s.current, s.next, s.next)
  }

  /**
   * Notifying again without a new next state leaves all three slots on the
   * same state: the machine only moves when SetNextState gives it somewhere
   * else to go.
   */
  lemma AdvanceTwice(s: Slots)
    requires s.next != null
    ensures Advance(Advance(s)) == Slots(s.next, s.next, s.next)
    ensures Advance(Advance(Advance(s))) == Advance(Advance(s))
  {
  }

  class Context {
    var last: State?
    var current: State?
    var next: State?

    function Snapshot(): Slots
      reads this
    {
      Slots(last, current, next)
    }

    /** A new context has all three slots empty. */
    constructor ()
      ensures last == null && current == null && next == null
    {
      last, current, next := null, null, null;
    }

    /** The id of the last state, or 0 when there is none. */
    function GetLastStateId(): (id: nat)
      reads this
      ensures last == null ==> id == 0
      ensures last != null ==> id == last.id
    {
      IdOf(last)
    }

    /** The id of the current state, or 0 when there is none. */
    function GetStateId(): (id: nat)
      reads this
      ensures current == null ==> id == 0
      ensures current != null ==> id == current.id
    {
      IdOf(current)
    }

    /** The id of the next state, or 0 when there is none. */
    function GetNextStateId(): (id: nat)
      reads this
      ensures next == null ==> id == 0
      ensures next != null ==> id == next.id
    {
      IdOf(next)
    }

    method SetLastState(s: State?) returns (status: bool)
      modifies this
      ensures status && last == s && current == old(current) && next == old(next)
    {
      last := s;
      status := true;
    }

    method SetState(s: State?) returns (status: bool)
      modifies this
      ensures status && current == s && last == old(last) && next == old(next)
    {
      current := s;
      status := true;
    }

    method SetNextState(s: State?) returns (status: bool)
      modifies this
      ensures status && next == s && last == old(last) && current == old(current)
    {
      next := s;
      status := true;
    }

    /**
     * Notify: with no next state nothing moves and the result is
     * STATUS_ERR; otherwise the current state becomes the last one, the
     * next state becomes the current one (and stays next), and the result
     * is the status the new current state reports for the event.
     */
    method Notify(observed: Status) returns (status: Status)
      modifies this
      ensures old(next) == null ==> status == STATUS_ERR && Snapshot() == old(Snapshot())
      ensures old(next) != null ==> status == observed && Snapshot() == Advance(old(Snapshot()))
    {
      status := STATUS_ERR;
      var s := next;
      if s != null {
        var ok := SetLastState(current);
        ok := SetState(next);
        status := observed;
      }
    }

    /** SetNextStateAndNotify: stores the next state, then notifies; the result is Notify's. */
    method SetNextStateAndNotify(s: State?, observed: Status) returns (status: Status)
      modifies this
      ensures next == s
      ensures s == null ==> status == STATUS_ERR && last == old(last) && current == old(current)
      ensures s != null ==> status == observed && last == old(current) && current == s
    {
      status := STATUS_ERR;
      var ok := SetNextState(s);
      if ok {
        status := Notify(observed);
      }
    }
  }
}
