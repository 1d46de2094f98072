/**
 * One iteration of the kernel's main loop (kernel/main.cpp:291-313), as a
 * sequential step: take at most one message off the main queue and dispatch
 * on its type. Only the queue access runs with interrupts masked; the model
 * assumes no message and no event arrive while the step runs. For a controller
 * interrupt the primary event ring is drained until it has no front entry;
 * an error from one event is logged and does not stop the drain. A message
 * of any other type is logged and discarded.
 */
module Dispatcher {

  import opened KernelTypes

  /** Message::kInterruptXHCI, the first (and only) enumerator of Message::Type. */
  const INTERRUPT_XHCI: int := 0

  /** The plain-data message passed from the interrupt handler to the loop. */
  datatype Message = Message(msgType: int)

  /**
   * An event TRB on the primary event ring. `fails` says whether
   * ProcessEvent, whose source is not part of this model, reports an error
   * for it.
   */
  datatype EventTrb = EventTrb(trbType: nat, fails: bool)

  /** What one iteration did: nothing, a drain of the event ring, or a discarded message. */
  datatype Outcome = Idle | Drained(processed: nat, errors: nat) | Discarded(msgType: int)

  /** The state one iteration reads and changes. */
  datatype LoopState = LoopState(queue: seq<Message>, ring: seq<EventTrb>)

  /** Stand-in for ArrayQueue<Message>; its source is not part of this model. */
  class ArrayQueue {
    var items: seq<Message>   // front first

    function Count(): nat
      reads this
    {
      |items|
    }

    method Front() returns (msg: Message)
      requires items != []
      ensures msg == items[0]
    {
      msg := items[0];
    }

    method Pop() returns (err: Error)
      modifies this
      ensures err.Failure? <==> old(items) == []
      ensures items == if old(items) == [] then old(items) else old(items)[1..]
    {
      if items == [] {
        err := Failure(0);
      } else {
        items := items[1..];
        err := Success;
      }
    }
  }

  /** Stand-in for the xHC's primary event ring; its source is not part of this model. */
  class EventRing {
    var events: seq<EventTrb>   // front first

    function HasFront(): bool
      reads this
    {
      events != []
    }
  }

  /** Stand-in for usb::xhci::ProcessEvent: it consumes the front event, if any. */
  method ProcessEvent(ring: EventRing) returns (err: Error)
    modifies ring
    ensures ring.events == if old(ring.events) == [] then [] else old(ring.events)[1..]
    ensures err.Failure? <==> old(ring.events) != [] && old(ring.events)[0].fails
  {
    if ring.events == [] {
      err := Success;
    } else {
      err := if ring.events[0].fails then Failure(0) else Success;
      ring.events := ring.events[1..];
    }
  }

  /** The number of events in `events` for which ProcessEvent reports an error. */
  function FailCount(events: seq<EventTrb>): (n: nat)
    ensures n <= |events|
    ensures n == 0 <==> forall j :: 0 <= j < |events| ==> !events[j].fails
    decreases |events|
  {
    if events == [] then 0
    else FailCount(events[..|events| - 1]) + if events[|events| - 1].fails then 1 else 0
  }

  /** What one iteration of the main loop does to its state. */
  function Step(s: LoopState): (r: (LoopState, Outcome))
    ensures s.queue == [] ==> r.0 == s && r.1 == Idle
    ensures s.queue != [] ==> r.0.queue == s.queue[1..]
    ensures s.queue != [] && s.queue[0].msgType == INTERRUPT_XHCI ==>
              r.0.ring == [] && r.1.Drained? && r.1.processed == |s.ring| && r.1.errors <= r.1.processed
    ensures s.queue != [] && s.queue[0].msgType != INTERRUPT_XHCI ==>
              r.0.ring == s.ring && r.1 == Discarded(s.queue[0].msgType)
  {
    if s.queue == [] then (s, Idle)
    else if s.queue[0].msgType == INTERRUPT_XHCI then
      (LoopState(s.queue[1..], []), Drained(|s.ring|, FailCount(s.ring)))
    else
      (LoopState(s.queue[1..], s.ring), Discarded(s.queue[0].msgType))
  }

  /**
   * One iteration of the main loop. An empty queue leaves everything as it
   * is (the source then waits for the next interrupt); otherwise exactly
   * the front message is popped and dispatched.
   */
  method DispatchOnce(mainQueue: ArrayQueue, ring: EventRing) returns (outcome: Outcome)
    modifies mainQueue, ring
    ensures (LoopState(mainQueue.items, ring.events), outcome)
            == Step(LoopState(old(mainQueue.items), old(ring.events)))
  {
    if mainQueue.Count() == 0 {
      outcome := Idle;
      return;
    }
    var msg := mainQueue.Front();
    var _ := mainQueue.Pop();

    if msg.msgType == INTERRUPT_XHCI {
      var processed, errors := 0, 0;
      while ring.HasFront()
        invariant processed <= |old(ring.events)|
        invariant ring.events == old(ring.events)[processed..]
        invariant errors == FailCount(old(ring.events)[..processed])
        invariant mainQueue.items == old(mainQueue.items)[1..]
        decreases |ring.events|
      {
        assert old(ring.events)[..processed + 1][..processed] == old(ring.events)[..processed];
        var err := ProcessEvent(ring);
        if err.Failure? {
          errors := errors + 1;
        }
        processed := processed + 1;
      }
      assert old(ring.events)[..processed] == old(ring.events);
      outcome := Drained(processed, errors);
    } else {
      outcome := Discarded(msg.msgType);
    }
  }

  /** The state after `n` iterations with no new interrupts. */
  function Run(s: LoopState, n: nat): LoopState
    decreases n
  {
    if n == 0 then s else Run(Step(s).0, n - 1)
  }

  /**
   * With no new interrupts, as many iterations as there are queued messages
   * empty the queue. If one of them was a controller interrupt the event
   * ring is then empty too, however many events it held: one message is
   * enough to service every pending event. Otherwise the ring is untouched.
   */
  lemma {:induction false} RunDrains(s: LoopState, n: nat)
    requires |s.queue| <= n
    ensures Run(s, n).queue == []
    ensures (exists j :: 0 <= j < |s.queue| && s.queue[j].msgType == INTERRUPT_XHCI) ==> Run(s, n).ring == []
    ensures (forall j :: 0 <= j < |s.queue| ==> s.queue[j].msgType != INTERRUPT_XHCI) ==> Run(s, n).ring == s.ring
    decreases n
  {
    if n > 0 {
      var next := Step(s).0;
      RunDrains(next, n - 1);
      if s.queue != [] {
        assert forall j :: 1 <= j < |s.queue| ==> next.queue[j - 1] == s.queue[j];
        if s.queue[0].msgType == INTERRUPT_XHCI {
          RunKeepsEmptyRing(next, n - 1);
        }
      }
    }
  }

  /** Iterations without new interrupts never refill an empty event ring. */
  lemma {:induction false} RunKeepsEmptyRing(s: LoopState, n: nat)
    requires s.ring == []
    ensures Run(s, n).ring == []
    decreases n
  {
    if n > 0 {
      RunKeepsEmptyRing(Step(s).0, n - 1);
    }
  }
}
