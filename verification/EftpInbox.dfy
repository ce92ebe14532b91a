/** What the dispatcher hands over to a session, and what wakes it. */
module EftpInbox {
  import opened Basics
  import opened EftpSession

  // This is EftpQueue with its critical sections closed up.

  /** `asleep` says that the thread has found the queue empty and waits for the event. */
  datatype Inbox = Inbox(queue: seq<Packet>, event: bool, asleep: bool)

  const EMPTY: Inbox := Inbox([], false, false)

  function Put(i: Inbox, p: Packet): Inbox { i.(queue := i.queue + [p], event := true) }

  /** A wait ends at once when the event is set, which the wait then uses up. */
  predicate Possible(i: Inbox, e: Event) { (e.Signalled? ==> i.event) && (e.Expired? ==> !i.event) }

  function AfterEvent(i: Inbox, e: Event): Inbox { if e.Signalled? then i.(event := false) else i }

  /** The thread waits for a packet only while it is free and the session open, and a
      packet that is there will wake it. */
  ghost predicate Housed(c: Core, live: bool, i: Inbox) {
    && (!live ==> c.phase.Ready? && c.state == CLOSED && i == EMPTY)
    && (i.asleep ==> c.phase.Ready? && c.state == ESTABLISHED && (i.queue != [] ==> i.event))
  }

  /** How far the thread is from taking a packet. */
  function Distance(c: Core, i: Inbox): nat {
    if c.phase.Writing? then 4
    else if c.phase.Waiting? || i.asleep then (if i.event then 2 else 3)
    else if i.queue == [] then 1 else 0
  }

  /** How many packets are taken before only copies of p are left. */
  function Stale(queue: seq<Packet>, p: Packet): nat {
    if queue == [] || queue[|queue| - 1] != p then |queue| else Stale(queue[..|queue| - 1], p)
  }

  lemma StaleAfterPut(queue: seq<Packet>, p: Packet)
    ensures Stale(queue + [p], p) == Stale(queue, p)
  {
    assert (queue + [p])[..|queue|] == queue;
  }

  lemma {:induction false} StaleAfterTake(queue: seq<Packet>, p: Packet)
    requires queue != []
    ensures Stale(queue, p) > 0 ==> Stale(queue[1..], p) == Stale(queue, p) - 1
    ensures Stale(queue, p) == 0 ==> queue[0] == p && Stale(queue[1..], p) == 0
  {
    var n := |queue| - 1;
    if n > 0 && queue[n] == p {
      StaleAfterTake(queue[..n], p);
      assert queue[1..][..n - 1] == queue[..n][1..];
    }
  }

  // ----- How near a session is to its end -----

  datatype Thread = Thread(core: Core, live: bool, inbox: Inbox)

  function Stage(t: Thread): nat { if !t.live then 0 else if t.core.state == CLOSED then 1 else 2 }

  /** How many deliveries and waits there are before the thread is free or at a write. */
  function Delay(t: Thread): nat {
    if Distance(t.core, t.inbox) == 3 then 2 else if Distance(t.core, t.inbox) == 2 then 1 else 0
  }

  /** Nothing that the thread has before it will end the session, or wake it. */
  predicate NeedsAnError(t: Thread) {
    || Delay(t) == 2
    || (t.live && t.core.phase.Ready? && !t.inbox.asleep && t.core.state != CLOSED && Error !in t.inbox.queue)
  }

  /** Whether t comes after s on the way to the end of the session. */
  predicate Nearer(t: Thread, s: Thread) {
    || Stage(t) < Stage(s)
    || (&& Stage(t) == Stage(s)
        && (Error in s.inbox.queue ==> Error in t.inbox.queue)
        && (|| Delay(t) < Delay(s)
            || (&& Delay(t) == Delay(s)
                && (|| |t.inbox.queue| < |s.inbox.queue|
                    || (t.inbox.queue == s.inbox.queue && s.core.phase.Writing? && !t.core.phase.Writing?)))))
  }
}
