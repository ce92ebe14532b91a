/** How far a write transfer can be carried, in one session and in several. */
module EftpWriteProgress {
  import opened Basics
  import opened EftpSession
  import opened EftpFile
  import opened EftpInbox
  import opened EftpWrite
  import opened Runs

  /** The session is open, and nothing is queued that closes it. */
  ghost predicate Underway(s: Sys) {
    s.live && s.r.core.state == ESTABLISHED && forall p <- s.inbox.queue :: p.Data? || p.Wrq?
  }

  /** How many blocks this session has stored. */
  function DoneBlocks(s: Sys): int { s.r.core.nextBlkNo - 1 }

  ghost predicate Finished(f: Source, s: Sys) {
    && s.r.stored == f.bytes
    && exists n: Wire :: Ack(n) in s.r.core.link && Blocks(f.bytes, f.blockSize, n) == f.bytes
  }

  /** The whole file is stored and its last block has been acknowledged. */
  ghost function Done(f: Source): Sys -> bool { (s: Sys) => Finished(f, s) }

  /** The session is open and has stored n blocks. */
  ghost function Stores(f: Source, n: nat): Sys -> bool { (s: Sys) => Inv(f, s) && Underway(s) && DoneBlocks(s) >= n }

  ghost predicate Going(f: Source, s: Sys) { Proper(f) && Inv(f, s) && Underway(s) }

  /** All of the packet is written to the file. */
  function Whole(s: Sys): Action
    requires s.inbox.queue != []
  {
    Serve(if s.inbox.queue[0].Data? then |s.inbox.queue[0].payload| else 0)
  }

  lemma ServeGoesOn(f: Source, s: Sys)
    requires Going(f, s) && Distance(s.r.core, s.inbox) == 0
    ensures Enabled(f, s, Whole(s))
    ensures var t := Apply(f, s, Whole(s));
            && Going(f, t) && t.inbox.queue == s.inbox.queue[1..]
            && t.r.core.phase.Writing? && DoneBlocks(s) <= DoneBlocks(t) <= DoneBlocks(s) + 1
            && (s.inbox.queue[0].Data? && s.inbox.queue[0].blkNo == s.r.core.nextBlkNo ==>
                  DoneBlocks(t) == DoneBlocks(s) + 1)
            && (DoneBlocks(t) == DoneBlocks(s) ==> t.r.stored == s.r.stored)
  {
    assert Housed(s.r.core, s.live, s.inbox) && s.r.core.nextBlkNo >= 1;
    assert s.inbox.queue[0] in s.inbox.queue;
    StepKeepsInv(f, s, Whole(s));
    hide Inv, WriteAt;
    assert forall q <- Apply(f, s, Whole(s)).inbox.queue :: q in s.inbox.queue;
  }

  lemma SendGoesOn(f: Source, s: Sys, e: Event)
    requires Going(f, s) && Enabled(f, s, Send(e)) && (e.WriteOk? || e.Signalled?)
    ensures var t := Apply(f, s, Send(e));
            && Going(f, t) && DoneBlocks(t) == DoneBlocks(s) && t.r.stored == s.r.stored
            && t.inbox.queue == s.inbox.queue && Distance(t.r.core, t.inbox) < Distance(s.r.core, s.inbox)
  {
    StepKeepsInv(f, s, Send(e));
    assert Housed(s.r.core, s.live, s.inbox);
    assert !s.r.core.phase.Ready? ==> s.r.core.phase.after == s.r.core.nextBlkNo;
    hide Inv;
  }

  lemma WakeGoesOn(f: Source, s: Sys)
    requires Going(f, s) && Enabled(f, s, Wake)
    ensures var t := Apply(f, s, Wake);
            && Going(f, t) && t.r == s.r
            && t.inbox.queue == s.inbox.queue && Distance(t.r.core, t.inbox) < Distance(s.r.core, s.inbox)
  {
    StepKeepsInv(f, s, Wake);
    assert Housed(s.r.core, s.live, s.inbox);
    hide Inv;
  }

  /** The peer sends a packet, and the dispatcher gets it. */
  lemma DeliveryGoesOn(f: Source, s: Sys, p: Packet, goal: Sys -> bool) returns (t: Sys)
    requires Going(f, s) && Sendable(f, p) && Distance(s.r.core, s.inbox) in {1, 3}
    ensures Going(f, t) && t.r == s.r
    ensures t.inbox == Put(s.inbox, p) && Distance(t.r.core, t.inbox) < Distance(s.r.core, s.inbox)
    ensures CanReach(Step(f), InSession(), t, goal) ==> CanReach(Step(f), InSession(), s, goal)
  {
    assert Housed(s.r.core, s.live, s.inbox);
    var s1 := Apply(f, s, PeerSend(p));
    t := Apply(f, s1, Deliver(p));
    StepKeepsInv(f, s, PeerSend(p));
    StepKeepsInv(f, s1, Deliver(p));
    hide Inv, CanReach, Sendable;
    if CanReach(Step(f), InSession(), t, goal) {
      Before(Step(f), InSession(), s1, Deliver(p), goal);
      Before(Step(f), InSession(), s, PeerSend(p), goal);
    }
  }

  /** The packet that a session waits for. */
  function Awaited(f: Source, s: Sys): Packet {
    if 1 <= s.r.core.nextBlkNo <= 0xFFFF
    then Data(s.r.core.nextBlkNo, Block(f.bytes, f.blockSize, s.r.core.nextBlkNo))
    else Error
  }

  lemma AwaitedIsSendable(f: Source, s: Sys, n: nat)
    requires Going(f, s) && n <= 0xFFFF && Within(f, n) && DoneBlocks(s) < n
    ensures Sendable(f, Awaited(f, s))
  {
    assert s.r.core.nextBlkNo >= 1;
    hide Inv;
    TimesIsMonotone(f.blockSize, s.r.core.nextBlkNo - 1, n - 1);
  }

  /** From every open state the session can store any number of blocks that the file has
      and that can be numbered. The sender is woken by a packet each time it waits. */
  lemma {:induction false} Advances(f: Source, s: Sys, n: nat)
    requires Going(f, s) && n <= 0xFFFF && Within(f, n)
    ensures CanReach(Step(f), InSession(), s, Stores(f, n))
    decreases if DoneBlocks(s) < n then n - DoneBlocks(s) else 0, Stale(s.inbox.queue, Awaited(f, s)),
              Distance(s.r.core, s.inbox)
  {
    assert Housed(s.r.core, s.live, s.inbox) && s.r.core.nextBlkNo >= 1;
    if DoneBlocks(s) >= n {
      Already(Step(f), InSession(), s, Stores(f, n));
      return;
    }
    hide Inv, CanReach, Sendable, Within;
    var p := Awaited(f, s);
    if Distance(s.r.core, s.inbox) in {1, 3} {
      AwaitedIsSendable(f, s, n);
      var t := DeliveryGoesOn(f, s, p, Stores(f, n));
      StaleAfterPut(s.inbox.queue, p);
      Advances(f, t, n);
    } else {
      var a := NextAction(s);
      if a.Serve? {
        ServeGoesOn(f, s);
        StaleAfterTake(s.inbox.queue, p);
      } else if a.Wake? {
        WakeGoesOn(f, s);
      } else {
        SendGoesOn(f, s, a.e);
      }
      Advances(f, Apply(f, s, a), n);
      Before(Step(f), InSession(), s, a, Stores(f, n));
    }
  }

  /** What the thread does next, when everything goes well. */
  function NextAction(s: Sys): Action
    requires Distance(s.r.core, s.inbox) == 0 ==> s.inbox.queue != []
  {
    if s.inbox.asleep then Wake
    else if s.r.core.phase.Writing? then Send(WriteOk)
    else if s.r.core.phase.Waiting? then Send(Signalled)
    else if s.inbox.queue != [] then Whole(s) else Doze
  }

  /** Once all blocks are stored, any packet makes the session acknowledge the last one. */
  lemma {:induction false} Acknowledges(f: Source, s: Sys)
    requires Going(f, s) && DoneBlocks(s) >= 1 && Blocks(f.bytes, f.blockSize, DoneBlocks(s)) == f.bytes
    ensures CanReach(Step(f), InSession(), s, Done(f))
    decreases Distance(s.r.core, s.inbox)
  {
    assert Housed(s.r.core, s.live, s.inbox);
    if s.r.core.phase.Writing? {
      AcknowledgesNow(f, s);
      return;
    }
    hide Inv, CanReach, Blocks;
    if Distance(s.r.core, s.inbox) in {1, 3} {
      var p := Data(1, Block(f.bytes, f.blockSize, 1));
      var t := DeliveryGoesOn(f, s, p, Done(f));
      Acknowledges(f, t);
    } else {
      var a := NextAction(s);
      var t := Apply(f, s, a);
      if a.Serve? {
        ServeGoesOn(f, s);
        StillAll(f, DoneBlocks(s), DoneBlocks(t));
        AcknowledgesNow(f, t);
      } else {
        if a.Wake? {
          WakeGoesOn(f, s);
        } else {
          SendGoesOn(f, s, a.e);
        }
        Acknowledges(f, t);
      }
      Before(Step(f), InSession(), s, a, Done(f));
    }
  }

  lemma StillAll(f: Source, m: nat, n: nat)
    requires m <= n && Blocks(f.bytes, f.blockSize, m) == f.bytes
    ensures Blocks(f.bytes, f.blockSize, n) == f.bytes
  {
    BlocksGrow(f.bytes, f.blockSize, m, n);
  }

  lemma AcknowledgesNow(f: Source, s: Sys)
    requires Going(f, s) && Blocks(f.bytes, f.blockSize, DoneBlocks(s)) == f.bytes && s.r.core.phase.Writing?
    ensures CanReach(Step(f), InSession(), s, Done(f))
  {
    var ack := s.r.core.phase.msg.value;
    var t := Apply(f, s, Send(WriteOk));
    assert Copies(Some(ack), 1) == [ack];
    assert t.r.core.link[|s.r.core.link|] == ack;
    assert Ack(ack.blkNo) in t.r.core.link && Finished(f, t);
    Already(Step(f), InSession(), t, Done(f));
    Before(Step(f), InSession(), s, Send(WriteOk), Done(f));
  }

  // ----- The exact conditions -----

  /** From every state of every run in which the session is open and nothing is queued that
      closes it, this session can store n blocks if and only if the file has them, the last
      one maybe empty, and their numbers have 16 bits. */
  lemma {:induction false} StoresFromOpenStates(f: Source, run: seq<Action>, n: nat)
    requires Proper(f) && Run(Step(f), INIT, run) && Underway(End(Step(f), INIT, run))
    ensures CanReach(Step(f), InSession(), End(Step(f), INIT, run), Stores(f, n)) <==> n <= 0xFFFF && Within(f, n)
  {
    StepsKeepInv(f);
    RunKeepsInv(f, INIT, run);
    var s := End(Step(f), INIT, run);
    if n <= 0xFFFF && Within(f, n) {
      Advances(f, s, n);
    }
    hide Within;
    forall more | Run(Step(f), s, more) && Stores(f, n)(End(Step(f), s, more))
      ensures n <= 0xFFFF && Within(f, n)
    {
      StoredIsWithin(f, End(Step(f), s, more), n);
    }
  }

  lemma StoredIsWithin(f: Source, s: Sys, n: nat)
    requires Proper(f) && Inv(f, s) && DoneBlocks(s) >= n
    ensures n <= 0xFFFF && Within(f, n)
  {
    if n > 0 {
      TimesIsMonotone(f.blockSize, n - 1, DoneBlocks(s) - 1);
    }
  }

  /** And the transfer can be completed in this session if and only if the file has at most
      65535 blocks. Acknowledgements that the link layer did not accept do no harm here,
      where the peer may send any block at any time; EftpWriteInTurn has the other peer. */
  lemma {:induction false} CompletesFromOpenStates(f: Source, run: seq<Action>)
    requires Proper(f) && Run(Step(f), INIT, run) && Underway(End(Step(f), INIT, run))
    ensures CanReach(Step(f), InSession(), End(Step(f), INIT, run), Done(f)) <==> |f.bytes| <= 0xFFFF * f.blockSize
  {
    StepsKeepInv(f);
    RunKeepsInv(f, INIT, run);
    var s := End(Step(f), INIT, run);
    if |f.bytes| <= 0xFFFF * f.blockSize {
      CanComplete(f, s);
    }
    forall more | Run(Step(f), s, more) && Finished(f, End(Step(f), s, more))
      ensures |f.bytes| <= 0xFFFF * f.blockSize
    {
      FinishedIsNumbered(f, End(Step(f), s, more));
    }
  }

  lemma FinishedIsNumbered(f: Source, s: Sys)
    requires Finished(f, s)
    ensures |f.bytes| <= 0xFFFF * f.blockSize
  {
    var n: Wire :| Ack(n) in s.r.core.link && Blocks(f.bytes, f.blockSize, n) == f.bytes;
    assert |f.bytes| <= f.blockSize * n;
    TimesIsMonotone(f.blockSize, n, 0xFFFF);
  }

  lemma CanComplete(f: Source, s: Sys)
    requires Going(f, s) && |f.bytes| <= 0xFFFF * f.blockSize
    ensures CanReach(Step(f), InSession(), s, Done(f))
  {
    LastBlock(|f.bytes|, f.blockSize);
    var whole := (|f.bytes| + f.blockSize - 1) / f.blockSize;
    var n := if whole == 0 then 1 else whole;
    Advances(f, s, n);
    var run :| Run(Step(f), s, run) && AllOf(InSession(), run) && Stores(f, n)(End(Step(f), s, run));
    var t := End(Step(f), s, run);
    StillAll(f, whole, DoneBlocks(t));
    Acknowledges(f, t);
    After(Step(f), InSession(), s, run, Done(f));
  }

  // ----- Another session -----

  /** A session that has just been opened. */
  ghost predicate Fresh(f: Source, s: Sys) {
    Inv(f, s) && s.live && s.r == Receiver(FRESH_CORE, []) && s.inbox == Inbox([Wrq], true, false)
  }

  ghost function NextSession(f: Source): Sys -> bool { (s: Sys) => Fresh(f, s) }

  function ThreadOf(s: Sys): Thread { Thread(s.r.core, s.live, s.inbox) }

  /** The peer sends an error packet, and the dispatcher gets it. */
  lemma ErrorArrives(f: Source, s: Sys) returns (t: Sys)
    requires Proper(f) && Inv(f, s) && s.live
    ensures Inv(f, t) && t.r == s.r && t.live && t.inbox == Put(s.inbox, Error)
    ensures CanReach(Step(f), NoBlock(), t, NextSession(f)) ==> CanReach(Step(f), NoBlock(), s, NextSession(f))
  {
    var s1 := Apply(f, s, PeerSend(Error));
    t := Apply(f, s1, Deliver(Error));
    StepKeepsInv(f, s, PeerSend(Error));
    StepKeepsInv(f, s1, Deliver(Error));
    hide Inv, CanReach;
    if CanReach(Step(f), NoBlock(), t, NextSession(f)) {
      Before(Step(f), NoBlock(), s1, Deliver(Error), NextSession(f));
      Before(Step(f), NoBlock(), s, PeerSend(Error), NextSession(f));
    }
  }

  /** What the thread does on the way to its end. */
  function LeavingAction(s: Sys): Action {
    if !s.live then Open(false)
    else if s.inbox.asleep then Wake
    else if s.r.core.phase.Waiting? then Send(Signalled)
    else if s.r.core.phase.Writing? then Send(WriteFailed)
    else if s.r.core.state == CLOSED then Unregister
    else Serve(0)
  }

  lemma LeavingActionAdvances(f: Source, s: Sys)
    requires Proper(f) && Inv(f, s) && !NeedsAnError(ThreadOf(s))
    ensures var a := LeavingAction(s);
            && Enabled(f, s, a)
            && var t := Apply(f, s, a);
               Inv(f, t) && if s.live then Nearer(ThreadOf(t), ThreadOf(s)) else Fresh(f, t)
  {
    assert Housed(s.r.core, s.live, s.inbox) && s.r.core.state != CLOSING && Wrq in s.toServer;
    assert s.r.core.nextBlkNo >= 1;
    var a := LeavingAction(s);
    assert Enabled(f, s, a);
    StepKeepsInv(f, s, a);
    hide Inv, WriteAt;
    if a.Serve? {
      assert s.inbox.queue == [s.inbox.queue[0]] + s.inbox.queue[1..];
    }
  }

  /** The runs in which the peer sends no block. */
  function NoBlock(): Action -> bool { (a: Action) => a.PeerSend? ==> !a.p.Data? }

  /** From every reachable state the present session, if there is one, can be ended and
      another one opened, without any further block of the peer. */
  lemma {:induction false} Restarts(f: Source, s: Sys)
    requires Proper(f) && Inv(f, s)
    ensures CanReach(Step(f), NoBlock(), s, NextSession(f))
    decreases Stage(ThreadOf(s)), if Error in s.inbox.queue then 0 else 1, Delay(ThreadOf(s)), |s.inbox.queue|,
              if s.r.core.phase.Writing? then 1 else 0
  {
    assert Housed(s.r.core, s.live, s.inbox);
    hide Inv, CanReach;
    if NeedsAnError(ThreadOf(s)) {
      var t := ErrorArrives(f, s);
      assert t.inbox.queue[|s.inbox.queue|] == Error;
      Restarts(f, t);
    } else {
      LeavingActionAdvances(f, s);
      var a := LeavingAction(s);
      if s.live {
        Restarts(f, Apply(f, s, a));
      } else {
        Already(Step(f), NoBlock(), Apply(f, s, a), NextSession(f));
      }
      Before(Step(f), NoBlock(), s, a, NextSession(f));
    }
  }

  /** So what can be reached from a fresh session can be reached from everywhere. */
  lemma FromNextSession(f: Source, s: Sys, goal: Sys -> bool)
    requires Proper(f) && Inv(f, s) && AllReach(Step(f), Anything(), NextSession(f), goal)
    ensures CanReach(Step(f), Anything(), s, goal)
  {
    Restarts(f, s);
    var run :| Run(Step(f), s, run) && AllOf(NoBlock(), run) && Fresh(f, End(Step(f), s, run));
    OneReaches(Step(f), Anything(), NextSession(f), End(Step(f), s, run), goal);
    assert AllOf(Anything<Action>(), run);
    After(Step(f), Anything(), s, run, goal);
  }

  /** From every state of every run the transfer can be completed, if need be by opening
      another session, if and only if the file has at most 65535 blocks. */
  lemma {:induction false} CompletesFromEveryState(f: Source, run: seq<Action>)
    requires Proper(f) && Run(Step(f), INIT, run)
    ensures CanReach(Step(f), Anything(), End(Step(f), INIT, run), Done(f)) <==> |f.bytes| <= 0xFFFF * f.blockSize
  {
    StepsKeepInv(f);
    RunKeepsInv(f, INIT, run);
    var s := End(Step(f), INIT, run);
    if |f.bytes| <= 0xFFFF * f.blockSize {
      forall t: Sys | Fresh(f, t) ensures CanReach(Step(f), Anything(), t, Done(f)) {
        CanComplete(f, t);
        Widened(Step(f), InSession(), Anything(), t, Done(f));
      }
      FromNextSession(f, s, Done(f));
    }
    forall more | Run(Step(f), s, more) && Finished(f, End(Step(f), s, more))
      ensures |f.bytes| <= 0xFFFF * f.blockSize
    {
      FinishedIsNumbered(f, End(Step(f), s, more));
    }
  }

  ghost function StoresNothing(): Sys -> bool { (s: Sys) => s.r.stored == [] }

  /** A completed file stays as it is for as long as no further session is opened; but the
      request can always be repeated, and then nothing of it is left. */
  lemma {:induction false} CompletedFileIsLostByARequest(f: Source, run: seq<Action>)
    requires Proper(f) && Run(Step(f), INIT, run) && Finished(f, End(Step(f), INIT, run))
    ensures var s := End(Step(f), INIT, run);
            && (forall more :: Run(Step(f), s, more) && AllOf(InSession(), more) ==>
                  End(Step(f), s, more).r.stored == f.bytes)
            && CanReach(Step(f), Anything(), s, StoresNothing())
  {
    StepsKeepInv(f);
    RunKeepsInv(f, INIT, run);
    var s := End(Step(f), INIT, run);
    forall more | Run(Step(f), s, more) && AllOf(InSession(), more)
      ensures End(Step(f), s, more).r.stored == f.bytes
    {
      StoredGrowsInSession(f, s, more);
      RunKeepsInv(f, s, more);
      InvIsSafe(f, End(Step(f), s, more));
    }
    forall t: Sys | Fresh(f, t) ensures CanReach(Step(f), Anything(), t, StoresNothing()) {
      Already(Step(f), Anything(), t, StoresNothing());
    }
    FromNextSession(f, s, StoresNothing());
  }
}
