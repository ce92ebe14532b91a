/** A read transfer over several sessions, which repeated requests open. */
module EftpReadAgain {
  import opened Basics
  import opened EftpSession
  import opened EftpFile
  import opened EftpInbox
  import opened EftpRead
  import opened EftpReadProgress
  import opened Runs

  // ----- A session can always be ended and another one opened -----

  /** A session that has just been opened. */
  ghost predicate Fresh(f: Source, s: Sys) {
    Inv(f, s) && s.live && s.srv == FRESH_CORE && s.inbox == Inbox([Rrq], true, false)
  }

  ghost function NextSession(f: Source, held: nat): Sys -> bool { (s: Sys) => Fresh(f, s) && s.held == held }

  function ThreadOf(s: Sys): Thread { Thread(s.srv, s.live, s.inbox) }

  /** The peer sends an error packet, and the dispatcher gets it. */
  lemma ErrorArrives(f: Source, s: Sys, goal: Sys -> bool) returns (t: Sys)
    requires Proper(f) && Inv(f, s) && s.live
    ensures Inv(f, t) && t.srv == s.srv && t.live && t.held == s.held && t.inbox == Put(s.inbox, Error)
    ensures CanReach(Step(f), Anything(), t, goal) ==> CanReach(Step(f), Anything(), s, goal)
  {
    var s1 := Apply(f, s, PeerSend(Error));
    t := Apply(f, s1, Deliver(Error));
    StepKeepsInv(f, s, PeerSend(Error));
    StepKeepsInv(f, s1, Deliver(Error));
    hide Inv, CanReach;
    if CanReach(Step(f), Anything(), t, goal) {
      Before(Step(f), Anything(), s1, Deliver(Error), goal);
      Before(Step(f), Anything(), s, PeerSend(Error), goal);
    }
  }

  /** What the thread does when no packet is taken. */
  function NextAction(s: Sys): Action {
    if !s.live then Open(false)
    else if s.inbox.asleep then Wake
    else if s.srv.phase.Waiting? then Send(Signalled)
    else if s.srv.phase.Writing? then Send(WriteFailed)
    else if s.srv.state == CLOSED then Unregister
    else Serve
  }

  lemma NextActionAdvances(f: Source, s: Sys)
    requires Proper(f) && Inv(f, s) && !NeedsAnError(ThreadOf(s))
    ensures var a := NextAction(s);
            && Enabled(s, a)
            && var t := Apply(f, s, a);
               Inv(f, t) && t.held == s.held && if s.live then Nearer(ThreadOf(t), ThreadOf(s)) else Fresh(f, t)
  {
    assert Housed(s.srv, s.live, s.inbox) && s.srv.state != CLOSING && Rrq in s.toServer;
    var a := NextAction(s);
    assert Enabled(s, a);
    StepKeepsInv(f, s, a);
    hide Inv;
    if a.Serve? {
      assert s.inbox.queue == [s.inbox.queue[0]] + s.inbox.queue[1..];
    }
  }

  /** From every reachable state the present session, if there is one, can be ended and
      another one opened. */
  lemma {:induction false} Restarts(f: Source, s: Sys, goal: Sys -> bool)
    requires Proper(f) && Inv(f, s) && AllReach(Step(f), Anything(), NextSession(f, s.held), goal)
    ensures CanReach(Step(f), Anything(), s, goal)
    decreases Stage(ThreadOf(s)), if Error in s.inbox.queue then 0 else 1, Delay(ThreadOf(s)), |s.inbox.queue|,
              if s.srv.phase.Writing? then 1 else 0
  {
    assert Housed(s.srv, s.live, s.inbox);
    hide Inv, CanReach, AllReach;
    if NeedsAnError(ThreadOf(s)) {
      var t := ErrorArrives(f, s, goal);
      assert t.inbox.queue[|s.inbox.queue|] == Error;
      Restarts(f, t, goal);
    } else {
      NextActionAdvances(f, s);
      var a := NextAction(s);
      if s.live {
        Restarts(f, Apply(f, s, a), goal);
      } else {
        OneReaches(Step(f), Anything(), NextSession(f, s.held), Apply(f, s, a), goal);
      }
      Before(Step(f), Anything(), s, a, goal);
    }
  }

  lemma FreshIsHopeful(f: Source, s: Sys)
    requires Fresh(f, s)
    ensures Underway(s) && !Lost(f, s)
  {
    hide Inv;
  }

  // ----- What any number of sessions can do -----

  /** From every state of every run the transfer can be completed, if need be by opening
      another session, if and only if the file has at most 65535 blocks. */
  lemma {:induction false} CompletesFromEveryState(f: Source, run: seq<Action>)
    requires Proper(f) && Run(Step(f), INIT, run)
    ensures CanReach(Step(f), Anything(), End(Step(f), INIT, run), Done(f)) <==> |f.bytes| <= 0xFFFF * f.blockSize
  {
    StepsKeepInv(f);
    RunKeepsInv(f, INIT, run);
    var s := End(Step(f), INIT, run);
    if |f.bytes| <= 0xFFFF * f.blockSize {
      forall t: Sys | Fresh(f, t) && t.held == s.held ensures CanReach(Step(f), Anything(), t, Done(f)) {
        FreshIsHopeful(f, t);
        CanComplete(f, t);
        Widened(Step(f), InSession(), Anything(), t, Done(f));
      }
      Restarts(f, s, Done(f));
    }
    hide Inv, Finished;
    forall more | Run(Step(f), s, more) && Finished(f, End(Step(f), s, more))
      ensures |f.bytes| <= 0xFFFF * f.blockSize
    {
      RunKeepsInv(f, s, more);
      FinishedHoldsAll(f, End(Step(f), s, more), 0);
    }
  }

  /** And the peer can come to hold n blocks if and only if the file has them and their
      numbers have 16 bits. */
  lemma {:induction false} HoldsFromEveryState(f: Source, run: seq<Action>, n: nat)
    requires Proper(f) && Run(Step(f), INIT, run)
    ensures CanReach(Step(f), Anything(), End(Step(f), INIT, run), HoldsBlocks(n)) <==> n <= 0xFFFF && Within(f, n)
  {
    StepsKeepInv(f);
    RunKeepsInv(f, INIT, run);
    var s := End(Step(f), INIT, run);
    if n <= 0xFFFF && Within(f, n) {
      CanHold(f, s, n);
    }
    hide Inv, Within;
    forall more | Run(Step(f), s, more) && End(Step(f), s, more).held >= n
      ensures n <= 0xFFFF && Within(f, n)
    {
      RunKeepsInv(f, s, more);
      HeldIsWithin(f, End(Step(f), s, more), n);
    }
  }

  lemma CanHold(f: Source, s: Sys, n: nat)
    requires Proper(f) && Inv(f, s) && n <= 0xFFFF && Within(f, n)
    ensures CanReach(Step(f), Anything(), s, HoldsBlocks(n))
  {
    hide CanReach, Finished, Within, Lost;
    forall t: Sys | Fresh(f, t) && t.held == s.held ensures CanReach(Step(f), Anything(), t, HoldsBlocks(n)) {
      FreshIsHopeful(f, t);
      Advances(f, t, n);
      forall u: Sys | Inv(f, u) && Holds(f, n)(u) ensures HoldsBlocks(n)(u) {
        if Finished(f, u) {
          FinishedHoldsAll(f, u, n);
        }
      }
      Rather(f, InSession(), t, Holds(f, n), HoldsBlocks(n));
      Widened(Step(f), InSession(), Anything(), t, HoldsBlocks(n));
    }
    Restarts(f, s, HoldsBlocks(n));
  }

  // ----- When an acknowledgement is ahead of the server -----

  /** The handler is about to take an acknowledgement of a block that it has not counted. */
  ghost predicate AheadNext(s: Sys) { Enabled(s, Serve) && AckAhead(s.srv, s.inbox.queue[0]) }

  ghost function Ahead(): Sys -> bool { (s: Sys) => AheadNext(s) }

  /** The peer holds more than this session has counted, or can take as much from what
      former sessions have sent. */
  ghost predicate Behind(s: Sys) {
    var top := Settled(s.srv) - 1;
    s.held > top || (s.held == top && Sent(s, s.held + 1))
  }

  lemma StaysCaughtUp(f: Source, s: Sys, a: Action)
    requires Proper(f) && Inv(f, s) && !Behind(s) && Enabled(s, a) && !a.Open?
    ensures !Behind(Apply(f, s, a))
  {
    hide ReadAt, MaxBlkNo, Blocks;
    var t := Apply(f, s, a);
    var top := Settled(s.srv) - 1;
    match a
    case Serve =>
      assert Modest(s.held, s.inbox.queue[0]);
    case Send(e) =>
      if e.WriteOk? && s.srv.phase.msg.Some? {
        assert Copies(s.srv.phase.msg, 1) == [s.srv.phase.msg.value];
      }
    case PeerTake(p) =>
      forall q | q in t.srv.link || q in t.earlier ensures !Carries(Some(q), top + 1) {
        assert q in s.srv.link ==> Honest(f, top, q);
        assert q in s.earlier ==> Honest(f, s.held + 1, q);
      }
    case _ =>
  }

  /** In a session that has caught up no acknowledgement is ever ahead. */
  lemma NeverAhead(f: Source, s: Sys, run: seq<Action>)
    requires Proper(f) && Inv(f, s) && !Behind(s) && Run(Step(f), s, run) && AllOf(InSession(), run)
    ensures !AheadNext(End(Step(f), s, run))
  {
    var inv := (t: Sys) => Inv(f, t) && !Behind(t);
    forall t: Sys, a | InSession()(a) && inv(t) && Step(f)(t, a).Some? ensures inv(Step(f)(t, a).value) {
      StepKeepsInv(f, t, a);
      StaysCaughtUp(f, t, a);
    }
    RunKeeps(Step(f), InSession(), inv, s, run);
    var t := End(Step(f), s, run);
    if Enabled(t, Serve) {
      assert Modest(t.held, t.inbox.queue[0]);
    }
  }

  /** The peer's last acknowledgement is on its way to a session that has not counted so
      much, and nothing is before it. */
  ghost predicate Coming(f: Source, s: Sys) {
    && Proper(f) && Inv(f, s) && Underway(s) && s.held > Settled(s.srv) - 1
    && s.held <= 0xFFFF && Stale(s.inbox.queue, Ack(s.held)) == 0
  }

  lemma {:induction false} AheadComes(f: Source, s: Sys)
    requires Coming(f, s)
    ensures CanReach(Step(f), InSession(), s, Ahead())
    decreases Distance(s.srv, s.inbox)
  {
    assert Housed(s.srv, s.live, s.inbox) && Hopeful(f, s, 0);
    hide Inv, Lost, CanReach;
    if Distance(s.srv, s.inbox) == 0 {
      StaleAfterTake(s.inbox.queue, Ack(s.held));
      Already(Step(f), InSession(), s, Ahead());
    } else if Distance(s.srv, s.inbox) in {1, 3} {
      var t := DeliveryStaysHopeful(f, s, 0, Ahead());
      StaleAfterPut(s.inbox.queue, Ack(s.held));
      AheadComes(f, t);
    } else {
      var a := if s.inbox.asleep then Wake else if s.srv.phase.Writing? then Send(WriteOk) else Send(Signalled);
      if a.Wake? {
        WakeStaysHopeful(f, s, 0);
      } else {
        SendStaysHopeful(f, s, 0, a.e);
      }
      AheadComes(f, Apply(f, s, a));
      Before(Step(f), InSession(), s, a, Ahead());
    }
  }

  lemma BehindComesAhead(f: Source, s: Sys)
    requires Proper(f) && Inv(f, s) && Underway(s) && s.inbox.queue == [] && Behind(s)
    ensures CanReach(Step(f), InSession(), s, Ahead())
  {
    if s.held > Settled(s.srv) - 1 {
      AheadComes(f, s);
    } else {
      var p :| (p in s.srv.link || p in s.earlier) && Carries(Some(p), s.held + 1);
      var t := Apply(f, s, PeerTake(p));
      StepKeepsInv(f, s, PeerTake(p));
      AheadComes(f, t);
      Before(Step(f), InSession(), s, PeerTake(p), Ahead());
    }
  }

  /** In a session that has no packet left the branch for an acknowledgement that is ahead
      can be taken if and only if the session is behind; one that is not behind never takes
      it, and the first session never is. */
  lemma {:induction false} AheadExactlyWhenBehind(f: Source, run: seq<Action>)
    requires Proper(f) && Run(Step(f), INIT, run)
    ensures var s := End(Step(f), INIT, run);
            && (Underway(s) && s.inbox.queue == [] ==>
                  (CanReach(Step(f), InSession(), s, Ahead()) <==> Behind(s)))
            && (CanReach(Step(f), InSession(), s, Ahead()) ==> Behind(s) && s.sessions >= 2)
  {
    StepsKeepInv(f);
    RunKeepsInv(f, INIT, run);
    var s := End(Step(f), INIT, run);
    if Underway(s) && s.inbox.queue == [] && Behind(s) {
      BehindComesAhead(f, s);
    }
    if s.sessions <= 1 {
      FirstIsNotBehind(f, s);
    }
    hide Inv, Behind, AheadNext;
    forall more | Run(Step(f), s, more) && AllOf(InSession(), more) && AheadNext(End(Step(f), s, more))
      ensures Behind(s)
    {
      if !Behind(s) {
        NeverAhead(f, s, more);
      }
    }
  }

  lemma FirstIsNotBehind(f: Source, s: Sys)
    requires Inv(f, s) && s.sessions <= 1
    ensures !Behind(s)
  {
    forall p <- s.srv.link ensures !Carries(Some(p), Settled(s.srv)) {
      assert Honest(f, Settled(s.srv) - 1, p);
    }
  }

  /** Some run takes that branch if and only if the file has a second block. */
  lemma {:induction false} AheadIffTwoBlocks(f: Source)
    requires Proper(f)
    ensures CanReach(Step(f), Anything(), INIT, Ahead()) <==> |f.bytes| > f.blockSize
  {
    StepsKeepInv(f);
    if |f.bytes| > f.blockSize {
      HoldsFromEveryState(f, [], 2);
      var run :| Run(Step(f), INIT, run) && HoldsBlocks(2)(End(Step(f), INIT, run));
      RunKeepsInv(f, INIT, run);
      var s := End(Step(f), INIT, run);
      forall t: Sys | Fresh(f, t) && t.held == s.held ensures CanReach(Step(f), Anything(), t, Ahead()) {
        RequestThenAhead(f, t);
      }
      Restarts(f, s, Ahead());
      After(Step(f), Anything(), INIT, run, Ahead());
    }
    hide Inv, AheadNext;
    forall run | Run(Step(f), INIT, run) && AheadNext(End(Step(f), INIT, run))
      ensures |f.bytes| > f.blockSize
    {
      RunKeepsInv(f, INIT, run);
      AheadMeansTwoBlocks(f, End(Step(f), INIT, run));
    }
  }

  lemma AheadMeansTwoBlocks(f: Source, s: Sys)
    requires Proper(f) && Inv(f, s) && AheadNext(s)
    ensures |f.bytes| > f.blockSize
  {
    assert Modest(s.held, s.inbox.queue[0]) && s.held >= 2;
    TimesIsMonotone(f.blockSize, 1, s.held - 1);
  }

  lemma RequestThenAhead(f: Source, s: Sys)
    requires Proper(f) && Fresh(f, s) && s.held >= 2
    ensures CanReach(Step(f), Anything(), s, Ahead())
  {
    var t := Apply(f, s, Serve);
    ServeKeepsInv(f, s);
    assert f.bytes != [];
    assert Coming(f, t) by { assert t.inbox.queue == []; }
    AheadComes(f, t);
    Widened(Step(f), InSession(), Anything(), t, Ahead());
    Before(Step(f), Anything(), s, Serve, Ahead());
  }
}
