/** A write transfer with a peer that sends each block in its turn. */
module EftpWriteInTurn {
  import opened Basics
  import opened EftpSession
  import opened EftpFile
  import opened EftpInbox
  import opened EftpWrite
  import opened EftpWriteProgress
  import opened Runs

  // From some state on, the peer sends block k only when this session has put the
  // acknowledgement of block k - 1 on the link; old packets still arrive at any time.

  ghost predicate InTurn(s: Sys, a: Action) {
    a.PeerSend? && a.p.Data? && a.p.blkNo >= 1 ==> Ack(a.p.blkNo - 1) in s.r.core.link
  }

  ghost function TurnStep(f: Source): (Sys, Action) -> Option<Sys> {
    (s: Sys, a: Action) => if InTurn(s, a) && Enabled(f, s, a) then Some(Apply(f, s, a)) else None
  }

  // ----- What every run keeps -----

  /** Whatever is queued was sent by the peer, a waiting sender has its message on the link,
      and blocks are stored only after some block was sent. */
  ghost predicate Traced(s: Sys) {
    && (forall p <- s.inbox.queue :: p in s.toServer)
    && (s.r.core.phase.Waiting? && s.r.core.phase.msg.Some? ==> s.r.core.phase.msg.value in s.r.core.link)
    && (DoneBlocks(s) >= 1 ==> exists p :: p in s.toServer && p.Data?)
  }

  lemma StepKeepsTraced(f: Source, s: Sys, a: Action)
    requires Proper(f) && Inv(f, s) && Traced(s) && Enabled(f, s, a)
    ensures Traced(Apply(f, s, a))
  {
    assert Wrq in s.toServer && s.r.core.nextBlkNo >= 1;
    assert !s.r.core.phase.Ready? ==> s.r.core.phase.after == s.r.core.nextBlkNo;
    hide Inv, WriteAt;
    match a
    case Serve(_) =>
      var p := s.inbox.queue[0];
      assert p in s.inbox.queue;
      assert forall q <- s.inbox.queue[1..] :: q in s.inbox.queue;
      assert DoneBlocks(Apply(f, s, a)) != DoneBlocks(s) ==> p.Data?;
    case Send(WriteOk) =>
      if s.r.core.phase.msg.Some? {
        assert Copies(s.r.core.phase.msg, 1) == [s.r.core.phase.msg.value];
      }
    case _ =>
  }

  lemma RunKeepsTraced(f: Source, run: seq<Action>)
    requires Proper(f) && Run(Step(f), INIT, run)
    ensures Inv(f, End(Step(f), INIT, run)) && Traced(End(Step(f), INIT, run))
  {
    StepsKeepInv(f);
    var inv := (s: Sys) => Inv(f, s) && Traced(s);
    forall s: Sys, a | inv(s) && Step(f)(s, a).Some? ensures inv(Step(f)(s, a).value) {
      StepKeepsInv(f, s, a);
      StepKeepsTraced(f, s, a);
    }
    hide Inv, Traced;
    assert inv(INIT) by { StartsTraced(f); }
    RunKeeps(Step(f), Anything(), inv, INIT, run);
  }

  lemma StartsTraced(f: Source)
    requires Proper(f)
    ensures Inv(f, INIT) && Traced(INIT)
  {
    StepsKeepInv(f);
  }

  // ----- The session that nobody has heard of -----

  /** The session has put nothing on the link and has nothing left to answer, and no block
      was ever sent that could reach it. */
  ghost predicate Unheard(s: Sys) {
    && s.r.core.link == [] && s.r.core.phase.Ready?
    && (forall p <- s.inbox.queue :: !p.Wrq? && !p.Data?) && (forall p <- s.toServer :: !p.Data?)
  }

  /** Then it stays like that: the peer waits for an acknowledgement, and its request is
      dropped while the session lives. */
  lemma UnheardStays(f: Source, s: Sys, a: Action)
    requires Proper(f) && Unheard(s) && InTurn(s, a) && Enabled(f, s, a) && !a.Open?
    ensures Unheard(Apply(f, s, a))
  {
    hide WriteAt;
    if a.Serve? {
      assert s.inbox.queue[0] in s.inbox.queue;
      assert forall q <- s.inbox.queue[1..] :: q in s.inbox.queue;
    }
  }

  lemma UnheardForever(f: Source, s: Sys, run: seq<Action>)
    requires Proper(f) && Unheard(s) && Run(TurnStep(f), s, run) && AllOf(InSession(), run)
    ensures Unheard(End(TurnStep(f), s, run))
  {
    var inv := (t: Sys) => Unheard(t);
    forall t: Sys, a | InSession()(a) && inv(t) && TurnStep(f)(t, a).Some? ensures inv(TurnStep(f)(t, a).value) {
      UnheardStays(f, t, a);
    }
    hide Unheard;
    RunKeeps(TurnStep(f), InSession(), inv, s, run);
  }

  // ----- Everybody else gets on -----

  ghost predicate Heard(f: Source, s: Sys) { Going(f, s) && Traced(s) && !Unheard(s) }

  /** The session has stored n blocks, and has acknowledged the last one it stored. */
  ghost function Told(f: Source, n: nat): Sys -> bool {
    (s: Sys) => Inv(f, s) && Underway(s) && DoneBlocks(s) >= n && Acknowledged(s)
  }

  predicate Acknowledged(s: Sys) { 0 <= DoneBlocks(s) <= 0xFFFF && Ack(DoneBlocks(s)) in s.r.core.link }

  /** How far the acknowledgement of the last stored block is from the link. */
  function Unsaid(s: Sys): nat { if Acknowledged(s) then 0 else if s.r.core.phase.Writing? then 1 else 2 }

  function Missing(s: Sys, n: nat): nat { if DoneBlocks(s) < n then n - DoneBlocks(s) else 0 }

  function Behind(f: Source, s: Sys): nat { if Acknowledged(s) then Stale(s.inbox.queue, Awaited(f, s)) else 0 }

  /** t is nearer to storing and acknowledging more than s. */
  ghost predicate Closer(f: Source, t: Sys, s: Sys) {
    || DoneBlocks(t) > DoneBlocks(s)
    || (&& DoneBlocks(t) == DoneBlocks(s)
        && (|| Unsaid(t) < Unsaid(s)
            || (&& Unsaid(t) == Unsaid(s)
                && (|| Behind(f, t) < Behind(f, s)
                    || (&& Behind(f, t) == Behind(f, s)
                        && Distance(t.r.core, t.inbox) < Distance(s.r.core, s.inbox))))))
  }

  /** The steps of the thread by which things go on. */
  lemma ThreadGoesOn(f: Source, s: Sys)
    requires Heard(f, s) && Distance(s.r.core, s.inbox) !in {1, 3}
    ensures var a := NextAction(s);
            && Enabled(f, s, a) && InSession()(a) && TurnStep(f)(s, a) == Some(Apply(f, s, a))
            && Heard(f, Apply(f, s, a)) && Closer(f, Apply(f, s, a), s)
  {
    assert Housed(s.r.core, s.live, s.inbox) && s.r.core.nextBlkNo >= 1;
    assert !s.r.core.phase.Ready? ==> s.r.core.phase.msg == Some(Ack(s.r.core.nextBlkNo - 1));
    hide Inv, WriteAt;
    var a := NextAction(s);
    if a.Serve? {
      ServeGoesOn(f, s);
      StaleAfterTake(s.inbox.queue, Awaited(f, s));
    } else if a.Wake? {
      WakeGoesOn(f, s);
    } else {
      SendGoesOn(f, s, a.e);
      if a.e.WriteOk? {
        assert Copies(s.r.core.phase.msg, 1) == [s.r.core.phase.msg.value];
      }
    }
    StepKeepsTraced(f, s, a);
  }

  lemma NearerByPut(c: Core, i: Inbox, p: Packet)
    requires Distance(c, i) in {1, 3}
    ensures Distance(c, Put(i, p)) < Distance(c, i)
  {
  }

  lemma CloserByPut(f: Source, s: Sys, p: Packet)
    requires Distance(s.r.core, s.inbox) in {1, 3} && (Acknowledged(s) ==> p == Awaited(f, s))
    ensures Closer(f, s.(inbox := Put(s.inbox, p)), s)
  {
    hide Distance, Acknowledged;
    var t := s.(inbox := Put(s.inbox, p));
    NearerByPut(s.r.core, s.inbox, p);
    StaleAfterPut(s.inbox.queue, p);
    SameCore(f, s, t);
  }

  lemma SameCore(f: Source, s: Sys, t: Sys)
    requires t.r == s.r
    ensures Awaited(f, t) == Awaited(f, s) && Acknowledged(t) == Acknowledged(s) && Unsaid(t) == Unsaid(s)
  {
  }

  lemma DeliveredBlock(f: Source, s: Sys, p: Packet)
    requires Heard(f, s) && p in s.toServer && p.Data?
    ensures Apply(f, s, Deliver(p)) == s.(inbox := Put(s.inbox, p)) && Heard(f, Apply(f, s, Deliver(p)))
  {
    hide Inv, Traced, Handle;
    StepKeepsInv(f, s, Deliver(p));
    StepKeepsTraced(f, s, Deliver(p));
  }

  /** A block arrives: the awaited one, or any one while the acknowledgement of the last
      stored block is not on the link. */
  lemma BlockArrives(f: Source, s: Sys, p: Packet, goal: Sys -> bool) returns (t: Sys)
    requires Heard(f, s) && Distance(s.r.core, s.inbox) in {1, 3}
    requires p in s.toServer && p.Data? && (Acknowledged(s) ==> p == Awaited(f, s))
    ensures Heard(f, t) && Closer(f, t, s) && DoneBlocks(t) == DoneBlocks(s)
    ensures CanReach(TurnStep(f), InSession(), t, goal) ==> CanReach(TurnStep(f), InSession(), s, goal)
  {
    hide Inv, CanReach, Awaited, Handle, Closer;
    t := Apply(f, s, Deliver(p));
    DeliveredBlock(f, s, p);
    CloserByPut(f, s, p);
    if CanReach(TurnStep(f), InSession(), t, goal) {
      Before(TurnStep(f), InSession(), s, Deliver(p), goal);
    }
  }

  /** The awaited block is sent in its turn. */
  lemma NextBlockIsSent(f: Source, s: Sys, n: nat, goal: Sys -> bool) returns (t: Sys)
    requires Heard(f, s) && Acknowledged(s) && n <= 0xFFFF && Within(f, n) && DoneBlocks(s) < n
    ensures Heard(f, t) && Awaited(f, s) in t.toServer && Awaited(f, s).Data? && t == s.(toServer := t.toServer)
    ensures CanReach(TurnStep(f), InSession(), t, goal) ==> CanReach(TurnStep(f), InSession(), s, goal)
  {
    var a := PeerSend(Awaited(f, s));
    AwaitedIsSendable(f, s, n);
    t := Apply(f, s, a);
    StepKeepsInv(f, s, a);
    StepKeepsTraced(f, s, a);
    hide Inv, CanReach, Sendable;
    if CanReach(TurnStep(f), InSession(), t, goal) {
      Before(TurnStep(f), InSession(), s, a, goal);
    }
  }

  lemma WaitingHasSaid(f: Source, s: Sys)
    requires Inv(f, s) && Traced(s) && s.r.core.phase.Waiting?
    ensures Acknowledged(s)
  {
  }

  lemma SomeBlockWasSent(f: Source, s: Sys)
    requires Heard(f, s) && Distance(s.r.core, s.inbox) in {1, 3} && !Acknowledged(s)
    ensures exists p :: p in s.toServer && p.Data?
  {
    assert Housed(s.r.core, s.live, s.inbox) && 1 <= s.r.core.nextBlkNo <= 0x1_0000;
    if s.r.core.phase.Waiting? {
      WaitingHasSaid(f, s);
    } else if s.r.core.link != [] {
      var p := s.r.core.link[0];
      assert p.Ack? && p.blkNo <= s.r.core.nextBlkNo - 1;
      assert p == Ack(p.blkNo);
    }
  }

  /** A session that was heard of can store any number of blocks that the file has and that
      can be numbered, and acknowledge the last of them. */
  lemma {:induction false} AdvancesInTurn(f: Source, s: Sys, n: nat)
    requires Heard(f, s) && n <= 0xFFFF && Within(f, n)
    ensures CanReach(TurnStep(f), InSession(), s, Told(f, n))
    decreases Missing(s, 0x1_0000), Unsaid(s), Behind(f, s), Distance(s.r.core, s.inbox)
  {
    assert s.r.core.nextBlkNo <= 0x1_0000;
    hide CanReach, Within, Unheard, Traced, Awaited;
    if DoneBlocks(s) >= n && Acknowledged(s) {
      Already(TurnStep(f), InSession(), s, Told(f, n));
      return;
    }
    hide Inv;
    if Distance(s.r.core, s.inbox) in {1, 3} {
      if Acknowledged(s) {
        var s1 := NextBlockIsSent(f, s, n, Told(f, n));
        SameCore(f, s, s1);
        var t := BlockArrives(f, s1, Awaited(f, s), Told(f, n));
        AdvancesInTurn(f, t, n);
      } else {
        SomeBlockWasSent(f, s);
        var p :| p in s.toServer && p.Data?;
        var t := BlockArrives(f, s, p, Told(f, n));
        AdvancesInTurn(f, t, n);
      }
    } else {
      ThreadGoesOn(f, s);
      AdvancesInTurn(f, Apply(f, s, NextAction(s)), n);
      Before(TurnStep(f), InSession(), s, NextAction(s), Told(f, n));
    }
  }

  // ----- The exact conditions -----

  /** From every state of every run in which the session is open and nothing is queued that
      closes it: whatever the peer did before, from now on sending each block in its turn it
      can have n blocks stored and acknowledged in this session if and only if the file has
      them, their numbers have 16 bits, and the session was heard of. */
  lemma {:induction false} ToldExactly(f: Source, run: seq<Action>, n: nat)
    requires Proper(f) && Run(Step(f), INIT, run) && Underway(End(Step(f), INIT, run))
    ensures var s := End(Step(f), INIT, run);
            CanReach(TurnStep(f), InSession(), s, Told(f, n)) <==> n <= 0xFFFF && Within(f, n) && !Unheard(s)
  {
    RunKeepsTraced(f, run);
    var s := End(Step(f), INIT, run);
    if n <= 0xFFFF && Within(f, n) && !Unheard(s) {
      AdvancesInTurn(f, s, n);
    }
    hide Within;
    forall more | Run(TurnStep(f), s, more) && AllOf(InSession(), more) && Told(f, n)(End(TurnStep(f), s, more))
      ensures n <= 0xFFFF && Within(f, n) && !Unheard(s)
    {
      StoredIsWithin(f, End(TurnStep(f), s, more), n);
      if Unheard(s) {
        UnheardForever(f, s, more);
      }
    }
  }

  /** And the transfer can be completed in this session if and only if the file has at most
      65535 blocks and the session was heard of. */
  lemma {:induction false} CompletesInTurn(f: Source, run: seq<Action>)
    requires Proper(f) && Run(Step(f), INIT, run) && Underway(End(Step(f), INIT, run))
    ensures var s := End(Step(f), INIT, run);
            CanReach(TurnStep(f), InSession(), s, Done(f)) <==> |f.bytes| <= 0xFFFF * f.blockSize && !Unheard(s)
  {
    RunKeepsTraced(f, run);
    var s := End(Step(f), INIT, run);
    if |f.bytes| <= 0xFFFF * f.blockSize && !Unheard(s) {
      CanCompleteInTurn(f, s);
    }
    forall more | Run(TurnStep(f), s, more) && AllOf(InSession(), more) && Finished(f, End(TurnStep(f), s, more))
      ensures |f.bytes| <= 0xFFFF * f.blockSize && !Unheard(s)
    {
      FinishedIsNumbered(f, End(TurnStep(f), s, more));
      if Unheard(s) {
        UnheardForever(f, s, more);
      }
    }
  }

  lemma CountOfBlocks(f: Source) returns (n: nat)
    requires Proper(f) && |f.bytes| <= 0xFFFF * f.blockSize
    ensures n <= 0xFFFF && Within(f, n) && Blocks(f.bytes, f.blockSize, n) == f.bytes
  {
    LastBlock(|f.bytes|, f.blockSize);
    n := (|f.bytes| + f.blockSize - 1) / f.blockSize;
  }

  lemma CanCompleteInTurn(f: Source, s: Sys)
    requires Heard(f, s) && |f.bytes| <= 0xFFFF * f.blockSize
    ensures CanReach(TurnStep(f), InSession(), s, Done(f))
  {
    hide Inv, Within, Blocks, Finished, Acknowledged, Unheard, Traced;
    var n := CountOfBlocks(f);
    AdvancesInTurn(f, s, n);
    var run :| Run(TurnStep(f), s, run) && AllOf(InSession(), run) && Told(f, n)(End(TurnStep(f), s, run));
    var t := End(TurnStep(f), s, run);
    StillAll(f, n, DoneBlocks(t));
    ToldIsFinished(f, t);
  }

  lemma ToldIsFinished(f: Source, t: Sys)
    requires Proper(f) && Inv(f, t) && Underway(t) && Acknowledged(t)
    requires Blocks(f.bytes, f.blockSize, DoneBlocks(t)) == f.bytes
    ensures Finished(f, t)
  {
    assert Ack(DoneBlocks(t)) in t.r.core.link;
  }

  // ----- Another session -----

  /** A run in which the peer sends no block is one in which it sends each in its turn. */
  lemma {:induction false} NoBlockIsInTurn(f: Source, s: Sys, run: seq<Action>)
    requires Run(Step(f), s, run) && AllOf(NoBlock(), run)
    ensures Run(TurnStep(f), s, run) && End(TurnStep(f), s, run) == End(Step(f), s, run)
    decreases |run|
  {
    hide Enabled, Apply;
    if run != [] {
      assert NoBlock()(run[0]);
      assert AllOf(NoBlock(), run[1..]);
      NoBlockIsInTurn(f, Apply(f, s, run[0]), run[1..]);
    }
  }

  /** From every state of every run a peer that sends each block in its turn can complete
      the transfer, if need be in another session, if and only if the file has at most
      65535 blocks. */
  lemma {:induction false} CompletesInTurnFromEveryState(f: Source, run: seq<Action>)
    requires Proper(f) && Run(Step(f), INIT, run)
    ensures CanReach(TurnStep(f), Anything(), End(Step(f), INIT, run), Done(f)) <==> |f.bytes| <= 0xFFFF * f.blockSize
  {
    StepsKeepInv(f);
    RunKeepsInv(f, INIT, run);
    var s := End(Step(f), INIT, run);
    if |f.bytes| <= 0xFFFF * f.blockSize {
      Restarts(f, s);
      var again :| Run(Step(f), s, again) && AllOf(NoBlock(), again) && Fresh(f, End(Step(f), s, again));
      NoBlockIsInTurn(f, s, again);
      var t := End(Step(f), s, again);
      FreshIsHeard(f, t);
      CanCompleteInTurn(f, t);
      Widened(TurnStep(f), InSession(), Anything(), t, Done(f));
      assert AllOf(Anything<Action>(), again);
      After(TurnStep(f), Anything(), s, again, Done(f));
    }
    forall more | Run(TurnStep(f), s, more) && Finished(f, End(TurnStep(f), s, more))
      ensures |f.bytes| <= 0xFFFF * f.blockSize
    {
      FinishedIsNumbered(f, End(TurnStep(f), s, more));
    }
  }

  lemma FreshIsHeard(f: Source, s: Sys)
    requires Proper(f) && Fresh(f, s)
    ensures Heard(f, s)
  {
    assert s.inbox.queue[0] == Wrq;
  }

  // ----- How a session comes to be unheard -----

  function NoRefusal(): Action -> bool { (a: Action) => a != Send(WriteFailed) }

  /** An open session has still to take its request, or is answering, or has answered. */
  ghost predicate Spoken(s: Sys) {
    && (s.r.core.phase.Waiting? ==> s.r.core.link != [])
    && (s.live && s.r.core.state == ESTABLISHED && s.r.core.phase.Ready? && s.r.core.link == [] ==>
          s.inbox.queue != [] && s.inbox.queue[0] == Wrq)
  }

  lemma StepKeepsSpoken(f: Source, s: Sys, a: Action)
    requires Proper(f) && Inv(f, s) && Spoken(s) && Enabled(f, s, a) && a != Send(WriteFailed)
    ensures Spoken(Apply(f, s, a))
  {
    assert !s.r.core.phase.Ready? ==> s.r.core.phase.msg == Some(Ack(s.r.core.nextBlkNo - 1));
    assert Housed(s.r.core, s.live, s.inbox);
    hide Inv, WriteAt;
    if a == Send(WriteOk) {
      assert Copies(s.r.core.phase.msg, 1) == [s.r.core.phase.msg.value];
    }
  }

  /** Only a packet that the link layer has refused makes a session unheard: in runs
      without one every open session is heard of. */
  lemma {:induction false} OnlyRefusedAcksAreUnheard(f: Source, run: seq<Action>)
    requires Proper(f) && Run(Step(f), INIT, run) && AllOf(NoRefusal(), run)
    ensures var s := End(Step(f), INIT, run); Underway(s) ==> !Unheard(s)
  {
    StepsKeepInv(f);
    var inv := (s: Sys) => Inv(f, s) && Spoken(s);
    forall s: Sys, a | NoRefusal()(a) && inv(s) && Step(f)(s, a).Some? ensures inv(Step(f)(s, a).value) {
      StepKeepsInv(f, s, a);
      StepKeepsSpoken(f, s, a);
    }
    RunKeeps(Step(f), NoRefusal(), inv, INIT, run);
  }

  /** One refused packet is enough: the session is open and has taken its request, the peer
      waits for an acknowledgement, and nothing is stored in this session any more. */
  lemma RefusedAckStallsTheSession(f: Source)
    requires Proper(f)
    ensures var run := [Open(false), Serve(0), Send(WriteFailed)];
            && Run(Step(f), INIT, run)
            && var s := End(Step(f), INIT, run);
               && Underway(s) && Unheard(s)
               && !CanReach(TurnStep(f), InSession(), s, Told(f, 0))
  {
    var run := [Open(false), Serve(0), Send(WriteFailed)];
    var s1 := Apply(f, INIT, Open(false));
    var s2 := Apply(f, s1, Serve(0));
    var s := Apply(f, s2, Send(WriteFailed));
    assert run[1..] == [Serve(0), Send(WriteFailed)] && run[1..][1..] == [Send(WriteFailed)];
    assert run[1..][1..][1..] == [];
    assert Run(Step(f), s2, [Send(WriteFailed)]) && End(Step(f), s2, [Send(WriteFailed)]) == s;
    assert Run(Step(f), s1, run[1..]) && End(Step(f), s1, run[1..]) == s;
    assert Run(Step(f), INIT, run) && End(Step(f), INIT, run) == s;
    ToldExactly(f, run, 0);
  }
}
