/** How far a read transfer can be carried in one session. */
module EftpReadProgress {
  import opened Basics
  import opened EftpSession
  import opened EftpFile
  import opened EftpInbox
  import opened EftpRead
  import opened Runs

  /** The runs in which no further session is opened. */
  function InSession(): Action -> bool { (a: Action) => !a.Open? }

  /** The session is open, and nothing is queued that closes it. */
  ghost predicate Underway(s: Sys) {
    s.live && s.srv.state == ESTABLISHED && forall p <- s.inbox.queue :: p.Ack? || p.Rrq?
  }

  /** The peer has the file and the server has closed the session. */
  ghost predicate Finished(f: Source, s: Sys) { s.sessions > 0 && s.got == f.bytes && s.srv.state == CLOSED }

  ghost function Done(f: Source): Sys -> bool { (s: Sys) => Finished(f, s) }

  predicate Carries(m: Option<Packet>, n: nat) { m.Some? && m.value.Data? && m.value.blkNo == n }

  /** Some session has put block n on the link. */
  ghost predicate Sent(s: Sys, n: nat) {
    (exists p <- s.srv.link :: Carries(Some(p), n)) || (exists p <- s.earlier :: Carries(Some(p), n))
  }

  /** The server has counted the block that the peer needs next, but no session has ever
      put it on the link, and this one is not about to. */
  ghost predicate Lost(f: Source, s: Sys) {
    && f.blockSize * s.held < |f.bytes| && Settled(s.srv) - 1 == s.held + 1
    && !Sent(s, s.held + 1)
    && (s.srv.phase.Writing? ==> !Carries(s.srv.phase.msg, s.held + 1))
  }

  // ----- A block that is not lost can be taken -----

  /** Up to n blocks their numbers fit into 16 bits. */
  predicate Numbered(f: Source, n: nat) { n <= 0xFFFF || |f.bytes| <= 0xFFFF * f.blockSize }

  /** The peer holds n blocks, or the transfer has been completed before. */
  ghost function Holds(f: Source, n: nat): Sys -> bool { (s: Sys) => s.held >= n || Finished(f, s) }

  /** States from which the peer can come to hold n blocks. */
  ghost predicate Hopeful(f: Source, s: Sys, n: nat) {
    Proper(f) && Numbered(f, n) && Inv(f, s) && Underway(s) && !Lost(f, s)
  }

  /** The server and the peer are where they were. */
  predicate SameCount(s: Sys, t: Sys) { Settled(t.srv) == Settled(s.srv) && t.held == s.held }

  lemma NextHasANumber(f: Source, held: nat, n: nat)
    requires Proper(f) && Numbered(f, n) && held < n && f.blockSize * held < |f.bytes|
    ensures held + 1 <= 0xFFFF
  {
    if held + 1 > 0xFFFF {
      TimesIsMonotone(f.blockSize, 0xFFFF, held);
    }
  }

  lemma SendStaysHopeful(f: Source, s: Sys, n: nat, e: Event)
    requires Hopeful(f, s, n) && (e.WriteOk? || e.Signalled?) && Enabled(s, Send(e))
    ensures var t := Apply(f, s, Send(e));
            && Hopeful(f, t, n) && SameCount(s, t) && t.inbox.queue == s.inbox.queue
            && Distance(t.srv, t.inbox) < Distance(s.srv, s.inbox)
  {
    StepKeepsInv(f, s, Send(e));
    assert Housed(s.srv, s.live, s.inbox);
    hide Inv;
    var t := Apply(f, s, Send(e));
    forall p <- s.srv.link ensures p in t.srv.link {}
    if e.WriteOk? && s.srv.phase.msg.Some? {
      assert t.srv.link[|s.srv.link|] == s.srv.phase.msg.value;
    }
  }

  lemma WakeStaysHopeful(f: Source, s: Sys, n: nat)
    requires Hopeful(f, s, n) && Enabled(s, Wake)
    ensures var t := Apply(f, s, Wake);
            && Hopeful(f, t, n) && SameCount(s, t) && t.inbox.queue == s.inbox.queue
            && Distance(t.srv, t.inbox) < Distance(s.srv, s.inbox)
  {
    StepKeepsInv(f, s, Wake);
    assert Housed(s.srv, s.live, s.inbox);
    hide Inv;
  }

  /** The peer repeats its last acknowledgement, and the dispatcher gets it. */
  lemma DeliveryStaysHopeful(f: Source, s: Sys, n: nat, goal: Sys -> bool) returns (t: Sys)
    requires Hopeful(f, s, n) && Distance(s.srv, s.inbox) in {1, 3}
    ensures Hopeful(f, t, n) && SameCount(s, t) && t.srv == s.srv
    ensures t.inbox == Put(s.inbox, Ack(s.held)) && Distance(t.srv, t.inbox) < Distance(s.srv, s.inbox)
    ensures CanReach(Step(f), InSession(), t, goal) ==> CanReach(Step(f), InSession(), s, goal)
  {
    assert s.held <= 0xFFFF && Housed(s.srv, s.live, s.inbox);
    var ack := Ack(s.held);
    var s1 := Apply(f, s, PeerSend(ack));
    t := Apply(f, s1, Deliver(ack));
    StepKeepsInv(f, s, PeerSend(ack));
    StepKeepsInv(f, s1, Deliver(ack));
    hide Inv, CanReach;
    if CanReach(Step(f), InSession(), t, goal) {
      Before(Step(f), InSession(), s1, Deliver(ack), goal);
      Before(Step(f), InSession(), s, PeerSend(ack), goal);
    }
  }

  /** What the handler makes of the first packet of the queue in an open session. */
  lemma ServeGoesOn(f: Source, s: Sys)
    requires Proper(f) && Inv(f, s) && Enabled(s, Serve) && (s.inbox.queue[0].Ack? || s.inbox.queue[0].Rrq?)
    ensures var t := Apply(f, s, Serve);
            var top := Settled(s.srv);
            && Inv(f, t) && t == s.(srv := t.srv, inbox := t.inbox) && t.srv.link == s.srv.link
            && (t.srv.state == CLOSED ==> s.got == f.bytes)
            && (t.srv.state != CLOSED ==> t.srv.state == ESTABLISHED && Settled(t.srv) >= top)
            && (s.inbox.queue[0] == Ack(s.held) && top <= s.held + 1 && t.srv.state != CLOSED ==> Settled(t.srv) > top)
            && (Settled(t.srv) <= Max(top, s.held + 1) ||
                  (Settled(t.srv) == top + 1 && t.srv.phase.Writing? &&
                   (top <= 0xFFFF ==> Carries(t.srv.phase.msg, top))))
  {
    ServeKeepsInv(f, s);
    ServedAcknowledgement(f, s);
    assert Modest(s.held, s.inbox.queue[0]);
    hide Blocks, MaxBlkNo, HonestServer, Within;
    if s.inbox.queue[0].Rrq? && f.bytes == [] {
      assert s.got == f.bytes by { AllBlocks(f.bytes, f.blockSize, s.held); }
    }
  }

  function Max(a: int, b: int): int { if a < b then b else a }

  lemma AllBlocks(bytes: seq<Byte>, blockSize: nat, n: nat)
    requires bytes == []
    ensures Blocks(bytes, blockSize, n) == bytes
  {
  }

  lemma ServeStaysHopeful(f: Source, s: Sys, n: nat)
    requires Hopeful(f, s, n) && s.held < n && Enabled(s, Serve)
    ensures var t := Apply(f, s, Serve);
            || Finished(f, t)
            || (Hopeful(f, t, n) && Settled(t.srv) >= Settled(s.srv) && t.held == s.held
                && (s.inbox.queue[0] == Ack(s.held) && Settled(s.srv) <= s.held + 1 ==>
                      Settled(t.srv) > Settled(s.srv)))
  {
    assert s.inbox.queue[0] in s.inbox.queue;
    ServeGoesOn(f, s);
    var t := Apply(f, s, Serve);
    assert forall q <- t.inbox.queue :: q in s.inbox.queue;
    assert s.sessions > 0 && 0 <= Settled(s.srv) - 1 <= s.held + 1;
    hide Inv;
    if t.srv.state != CLOSED && Lost(f, t) {
      NextHasANumber(f, s.held, n);
    }
  }

  lemma PeerTakesNext(f: Source, s: Sys, n: nat) returns (p: Packet)
    requires Hopeful(f, s, n) && s.srv.phase.Ready? && Settled(s.srv) == s.held + 2
    ensures Enabled(s, PeerTake(p))
    ensures var t := Apply(f, s, PeerTake(p));
            Hopeful(f, t, n) && t.held == s.held + 1 && t.srv == s.srv && t.inbox == s.inbox
  {
    assert Within(f, s.held + 1);
    p :| (p in s.srv.link || p in s.earlier) && Carries(Some(p), s.held + 1);
    assert Carries(Some(p), s.held + 1) && p.Data? && p.blkNo == s.held + 1;
    StepKeepsInv(f, s, PeerTake(p));
    hide Inv;
  }

  /** From every open state in which the next block is not lost the peer can come to hold
      any number of blocks that the file has and that can be numbered, and when it has them
      all the session is closed. The sender is woken by a packet each time it waits. */
  lemma {:induction false} Advances(f: Source, s: Sys, n: nat)
    requires Hopeful(f, s, n)
    ensures CanReach(Step(f), InSession(), s, Holds(f, n))
    decreases 2 * n + 4 - s.held - Settled(s.srv), Stale(s.inbox.queue, Ack(s.held)), Distance(s.srv, s.inbox) + 1
  {
    assert 0 <= Settled(s.srv) - 1 <= s.held + 1 && s.held <= 0xFFFF && Housed(s.srv, s.live, s.inbox);
    hide Inv, Lost, CanReach, Finished;
    if s.held >= n {
      Already(Step(f), InSession(), s, Holds(f, n));
    } else if s.srv.phase.Ready? && Settled(s.srv) == s.held + 2 {
      var p := PeerTakesNext(f, s, n);
      Advances(f, Apply(f, s, PeerTake(p)), n);
      Before(Step(f), InSession(), s, PeerTake(p), Holds(f, n));
    } else if Distance(s.srv, s.inbox) in {1, 3} {
      var t := DeliveryStaysHopeful(f, s, n, Holds(f, n));
      StaleAfterPut(s.inbox.queue, Ack(s.held));
      Advances(f, t, n);
    } else if Distance(s.srv, s.inbox) == 0 {
      ServeThenAdvances(f, s, n);
    } else {
      var a := if s.inbox.asleep then Wake else if s.srv.phase.Writing? then Send(WriteOk) else Send(Signalled);
      if a.Wake? {
        WakeStaysHopeful(f, s, n);
      } else {
        SendStaysHopeful(f, s, n, a.e);
      }
      Advances(f, Apply(f, s, a), n);
      Before(Step(f), InSession(), s, a, Holds(f, n));
    }
  }

  lemma {:induction false} ServeThenAdvances(f: Source, s: Sys, n: nat)
    requires Hopeful(f, s, n) && s.held < n && s.held <= 0xFFFF && Settled(s.srv) <= s.held + 1 && Enabled(s, Serve)
    ensures CanReach(Step(f), InSession(), s, Holds(f, n))
    decreases 2 * n + 4 - s.held - Settled(s.srv), Stale(s.inbox.queue, Ack(s.held)), 0
  {
    hide Inv, Lost, CanReach;
    var t := Apply(f, s, Serve);
    ServeStaysHopeful(f, s, n);
    StaleAfterTake(s.inbox.queue, Ack(s.held));
    if Finished(f, t) {
      Already(Step(f), InSession(), t, Holds(f, n));
    } else {
      Advances(f, t, n);
    }
    Before(Step(f), InSession(), s, Serve, Holds(f, n));
  }

  // ----- A lost block stays lost -----

  lemma StaysLost(f: Source, s: Sys, a: Action)
    requires Proper(f) && Inv(f, s) && Lost(f, s) && Enabled(s, a) && !a.Open?
    ensures Lost(f, Apply(f, s, a))
  {
    hide ReadAt;
    match a
    case Serve =>
      assert Modest(s.held, s.inbox.queue[0]);
    case Send(e) =>
      if e.WriteOk? && s.srv.phase.msg.Some? {
        assert Copies(s.srv.phase.msg, 1) == [s.srv.phase.msg.value];
      }
    case PeerTake(p) =>
      assert !Carries(Some(p), s.held + 1);
    case _ =>
  }

  lemma {:induction false} LostForever(f: Source, s: Sys, run: seq<Action>)
    requires Proper(f) && Inv(f, s) && Lost(f, s) && Run(Step(f), s, run) && AllOf(InSession(), run)
    ensures End(Step(f), s, run).held == s.held && !Finished(f, End(Step(f), s, run))
  {
    var inv := (t: Sys) => Inv(f, t) && Lost(f, t) && t.held == s.held;
    forall t: Sys, a | InSession()(a) && inv(t) && Step(f)(t, a).Some? ensures inv(Step(f)(t, a).value) {
      StepKeepsInv(f, t, a);
      StaysLost(f, t, a);
      TakesNothing(f, t, a);
    }
    RunKeeps(Step(f), InSession(), inv, s, run);
    assert |Blocks(f.bytes, f.blockSize, s.held)| < |f.bytes|;
  }

  lemma TakesNothing(f: Source, s: Sys, a: Action)
    requires Proper(f) && Lost(f, s) && Enabled(s, a)
    ensures Apply(f, s, a).held == s.held
  {
    if a.PeerTake? {
      assert !Carries(Some(a.p), s.held + 1);
    }
  }

  // ----- The exact conditions -----

  lemma FinishedHoldsAll(f: Source, s: Sys, n: nat)
    requires Proper(f) && Inv(f, s) && Finished(f, s)
    ensures Within(f, n) ==> s.held >= n
    ensures |f.bytes| <= 0xFFFF * f.blockSize
  {
    assert |f.bytes| <= f.blockSize * s.held;
    TimesIsMonotone(f.blockSize, s.held, 0xFFFF);
    if n > s.held {
      TimesIsMonotone(f.blockSize, s.held, n - 1);
    }
  }

  /** Another goal that the end of every run has when it has the first one. */
  lemma Rather(f: Source, allowed: Action -> bool, s: Sys, goal: Sys -> bool, other: Sys -> bool)
    requires Proper(f) && Inv(f, s) && CanReach(Step(f), allowed, s, goal)
    requires forall t: Sys :: Inv(f, t) && goal(t) ==> other(t)
    ensures CanReach(Step(f), allowed, s, other)
  {
    hide Inv;
    var run :| Run(Step(f), s, run) && AllOf(allowed, run) && goal(End(Step(f), s, run));
    RunKeepsInv(f, s, run);
  }

  ghost function HoldsBlocks(n: nat): Sys -> bool { (s: Sys) => s.held >= n }

  /** From every state of every run in which the session is open and nothing is queued that
      closes it, the peer can come to hold n blocks in this session if and only if it holds
      them already, or the file has them, their numbers have 16 bits, and the block that the
      peer needs next is not lost. */
  lemma {:induction false} HoldsFromOpenStates(f: Source, run: seq<Action>, n: nat)
    requires Proper(f) && Run(Step(f), INIT, run) && Underway(End(Step(f), INIT, run))
    ensures var s := End(Step(f), INIT, run);
            CanReach(Step(f), InSession(), s, HoldsBlocks(n)) <==>
              s.held >= n || (n <= 0xFFFF && Within(f, n) && !Lost(f, s))
  {
    StepsKeepInv(f);
    RunKeepsInv(f, INIT, run);
    var s := End(Step(f), INIT, run);
    hide Inv, Lost, Finished, Within;
    if s.held >= n {
      Already(Step(f), InSession(), s, HoldsBlocks(n));
    } else if n <= 0xFFFF && Within(f, n) && !Lost(f, s) {
      Advances(f, s, n);
      forall t: Sys | Inv(f, t) && Holds(f, n)(t) ensures HoldsBlocks(n)(t) {
        if Finished(f, t) {
          FinishedHoldsAll(f, t, n);
        }
      }
      Rather(f, InSession(), s, Holds(f, n), HoldsBlocks(n));
    }
    forall more | Run(Step(f), s, more) && AllOf(InSession(), more) && End(Step(f), s, more).held >= n
      ensures s.held >= n || (n <= 0xFFFF && Within(f, n) && !Lost(f, s))
    {
      RunKeepsInv(f, s, more);
      HeldIsWithin(f, End(Step(f), s, more), n);
      if Lost(f, s) {
        LostForever(f, s, more);
      }
    }
  }

  lemma HeldIsWithin(f: Source, s: Sys, n: nat)
    requires Proper(f) && Inv(f, s) && s.held >= n
    ensures n <= 0xFFFF && Within(f, n)
  {
    if n > 0 {
      TimesIsMonotone(f.blockSize, n - 1, s.held - 1);
    }
  }

  /** And the transfer can be completed in this session if and only if the file has at most
      65535 blocks and that block is not lost. */
  lemma {:induction false} CompletesFromOpenStates(f: Source, run: seq<Action>)
    requires Proper(f) && Run(Step(f), INIT, run) && Underway(End(Step(f), INIT, run))
    ensures var s := End(Step(f), INIT, run);
            CanReach(Step(f), InSession(), s, Done(f)) <==> |f.bytes| <= 0xFFFF * f.blockSize && !Lost(f, s)
  {
    StepsKeepInv(f);
    RunKeepsInv(f, INIT, run);
    var s := End(Step(f), INIT, run);
    if |f.bytes| <= 0xFFFF * f.blockSize && !Lost(f, s) {
      CanComplete(f, s);
    }
    hide Inv, Lost, Finished;
    forall more | Run(Step(f), s, more) && AllOf(InSession(), more) && Finished(f, End(Step(f), s, more))
      ensures |f.bytes| <= 0xFFFF * f.blockSize && !Lost(f, s)
    {
      RunKeepsInv(f, s, more);
      FinishedHoldsAll(f, End(Step(f), s, more), 0);
      if Lost(f, s) {
        LostForever(f, s, more);
      }
    }
  }

  lemma CanComplete(f: Source, s: Sys)
    requires Proper(f) && Inv(f, s) && Underway(s) && |f.bytes| <= 0xFFFF * f.blockSize && !Lost(f, s)
    ensures CanReach(Step(f), InSession(), s, Done(f))
  {
    hide Lost;
    Advances(f, s, 0x1_0000);
    Rather(f, InSession(), s, Holds(f, 0x1_0000), Done(f));
  }

  // ----- What loses a block -----

  /** A block that is counted is on the link or about to be put there. */
  ghost predicate Offered(s: Sys) {
    Settled(s.srv) - 1 == s.held + 1 && s.held < 0xFFFF ==>
      Sent(s, s.held + 1) || (s.srv.phase.Writing? && Carries(s.srv.phase.msg, s.held + 1))
  }

  lemma StepKeepsOffered(f: Source, s: Sys, a: Action)
    requires Proper(f) && Inv(f, s) && Offered(s) && Enabled(s, a) && a != Send(WriteFailed)
    ensures Offered(Apply(f, s, a))
  {
    hide ReadAt, Honest;
    var t := Apply(f, s, a);
    match a
    case Serve =>
      if s.inbox.queue[0].Ack? || s.inbox.queue[0].Rrq? {
        ServeGoesOn(f, s);
      }
    case Send(e) =>
      forall p <- s.srv.link ensures p in t.srv.link {}
      if e.WriteOk? && s.srv.phase.msg.Some? {
        assert t.srv.link[|s.srv.link|] == s.srv.phase.msg.value;
      }
    case _ =>
  }

  /** Only a packet that the link layer does not accept loses a block, whether in this
      session or in a former one. */
  lemma {:induction false} OnlyFailedWritesLose(f: Source, run: seq<Action>)
    requires Proper(f) && |f.bytes| <= 0xFFFF * f.blockSize && Run(Step(f), INIT, run)
    requires Send(WriteFailed) !in run
    ensures !Lost(f, End(Step(f), INIT, run))
  {
    var inv := (s: Sys) => Inv(f, s) && Offered(s);
    var accepted := (a: Action) => a != Send(WriteFailed);
    StepsKeepInv(f);
    forall s: Sys, a | accepted(a) && inv(s) && Step(f)(s, a).Some? ensures inv(Step(f)(s, a).value) {
      StepKeepsInv(f, s, a);
      StepKeepsOffered(f, s, a);
    }
    assert AllOf(accepted, run);
    RunKeeps(Step(f), accepted, inv, INIT, run);
    hide Inv;
    var s := End(Step(f), INIT, run);
    if Lost(f, s) {
      NextHasANumber(f, s.held, s.held + 1);
    }
  }

  /** Without such a failure the transfer can be completed from every open state; one such
      failure, at the first block, is enough to leave an open session that can not. */
  lemma {:induction false} FailedWriteStallsTheSession(f: Source, run: seq<Action>)
    requires Proper(f) && f.bytes != [] && |f.bytes| <= 0xFFFF * f.blockSize && Run(Step(f), INIT, run)
    ensures Send(WriteFailed) !in run && Underway(End(Step(f), INIT, run)) ==>
              CanReach(Step(f), InSession(), End(Step(f), INIT, run), Done(f))
    ensures var stalled := [Open(false), Serve, Send(WriteFailed)];
            && Run(Step(f), INIT, stalled) && Underway(End(Step(f), INIT, stalled))
            && !CanReach(Step(f), InSession(), End(Step(f), INIT, stalled), Done(f))
  {
    hide CanReach, Lost, Underway, Finished;
    if Send(WriteFailed) !in run && Underway(End(Step(f), INIT, run)) {
      OnlyFailedWritesLose(f, run);
      CompletesFromOpenStates(f, run);
    }
    StalledAtFirstBlock(f);
    CompletesFromOpenStates(f, [Open(false), Serve, Send(WriteFailed)]);
  }

  lemma StalledAtFirstBlock(f: Source)
    requires Proper(f) && f.bytes != []
    ensures var stalled := [Open(false), Serve, Send(WriteFailed)];
            && Run(Step(f), INIT, stalled)
            && Underway(End(Step(f), INIT, stalled)) && Lost(f, End(Step(f), INIT, stalled))
  {
    OneMore(Step(f), INIT, [], Open(false));
    OneMore(Step(f), INIT, [Open(false)], Serve);
    OneMore(Step(f), INIT, [Open(false), Serve], Send(WriteFailed));
    assert [] + [Open(false)] == [Open(false)] && [Open(false)] + [Serve] == [Open(false), Serve];
    assert [Open(false), Serve] + [Send(WriteFailed)] == [Open(false), Serve, Send(WriteFailed)];
  }
}
