/** What a read session does about packets that are lost. */
module EftpReadRecovery {
  import opened Basics
  import opened EftpSession
  import opened EftpFile
  import opened EftpInbox
  import opened EftpRead
  import opened EftpReadProgress
  import opened Runs

  // ----- What a session has last sent and last been told -----

  /** The message to be repeated is the last one on the link, and it carries the block that
      was counted last as soon as any packet on the link does. */
  ghost predicate Remembers(c: Core) {
    var top := Settled(c) - 1;
    && (c.state == ESTABLISHED ==> forall p <- c.link :: !p.Oack?)
    && (c.state == ESTABLISHED && c.phase.Writing? && c.phase.msg.Some? ==> !c.phase.msg.value.Oack?)
    && (c.lastSent.Some? ==> c.link != [] && c.link[|c.link| - 1] == c.lastSent.value)
    && top >= 0
    && (c.state == ESTABLISHED ==> forall p <- c.link :: Carries(Some(p), top) ==> Carries(c.lastSent, top))
    && (c.phase.Waiting? ==> c.phase.msg == c.lastSent)
    && (c.phase.Writing? && c.state == ESTABLISHED && top <= 0xFFFF ==>
          c.phase.msg == c.lastSent || Carries(c.phase.msg, top))
  }

  /** The last acknowledgement that was no repetition is that of the block counted last, or
      of the one before it. */
  ghost predicate Noted(s: Sys) {
    var top := Settled(s.srv) - 1;
    top - 1 <= s.srv.lastAckNo <= top && 0 <= s.srv.lastAckNo <= s.held
  }

  ghost predicate Sound(f: Source, s: Sys) { Proper(f) && Inv(f, s) && Remembers(s.srv) && Noted(s) }

  lemma NotYetOnTheLink(f: Source, s: Sys)
    requires Inv(f, s)
    ensures forall p <- s.srv.link :: p.Data? ==> p.blkNo < Settled(s.srv)
  {
    forall p | p in s.srv.link && p.Data? ensures p.blkNo < Settled(s.srv) {
      assert Honest(f, Settled(s.srv) - 1, p);
    }
  }

  lemma ServeRemembers(f: Source, s: Sys)
    requires Sound(f, s) && Enabled(s, Serve)
    ensures Remembers(Apply(f, s, Serve).srv)
  {
    NotYetOnTheLink(f, s);
    assert s.srv.state != CLOSING;
    hide Inv, MaxBlkNo, ReadAt, Noted;
  }

  lemma ServeNotes(f: Source, s: Sys)
    requires Sound(f, s) && Enabled(s, Serve)
    ensures Noted(Apply(f, s, Serve))
  {
    assert Modest(s.held, s.inbox.queue[0]);
    assert IsRequest(s.inbox.queue[0]) ==> s.srv == FRESH_CORE && s.inbox.queue[0] == Rrq;
    hide Inv, MaxBlkNo, ReadAt, Remembers;
  }

  lemma ServeStaysSound(f: Source, s: Sys)
    requires Sound(f, s) && Enabled(s, Serve)
    ensures Sound(f, Apply(f, s, Serve))
  {
    ServeKeepsInv(f, s);
    ServeRemembers(f, s);
    ServeNotes(f, s);
    hide Inv, Remembers, Noted;
  }

  lemma StepStaysSound(f: Source, s: Sys, a: Action)
    requires Sound(f, s) && Enabled(s, a)
    ensures Sound(f, Apply(f, s, a))
  {
    StepKeepsInv(f, s, a);
    match a
    case Serve => ServeStaysSound(f, s);
    case Send(e) =>
      hide Inv;
      if e.WriteOk? && s.srv.phase.msg.Some? {
        assert Copies(s.srv.phase.msg, 1) == [s.srv.phase.msg.value];
      }
    case _ =>
      assert s.srv.state != CLOSING;
      hide Inv;
  }

  lemma RunStaysSound(f: Source, s: Sys, run: seq<Action>)
    requires Sound(f, s) && Run(Step(f), s, run)
    ensures Sound(f, End(Step(f), s, run))
  {
    forall t: Sys, a | Sound(f, t) && Step(f)(t, a).Some? ensures Sound(f, Step(f)(t, a).value) {
      StepStaysSound(f, t, a);
    }
    hide Sound;
    RunKeeps(Step(f), Anything(), (t: Sys) => Sound(f, t), s, run);
  }

  lemma InitIsSound(f: Source)
    requires Proper(f)
    ensures Sound(f, INIT)
  {
    StepsKeepInv(f);
  }

  // ----- A lost block is sent again -----

  /** Nothing that is on the link ever arrives, and no further session is opened. */
  function NothingArrives(): Action -> bool { (a: Action) => !a.Open? && !a.PeerTake? }

  /** Behind the first `len` packets of the link there is one with block n. */
  ghost function Offers(len: nat, n: nat): Sys -> bool {
    (s: Sys) => exists i :: len <= i < |s.srv.link| && Carries(Some(s.srv.link[i]), n)
  }

  /** The server has counted the block that the peer needs next, but this session has never
      put it on the link and is not about to. */
  ghost predicate Forgotten(s: Sys) {
    && Settled(s.srv) - 1 == s.held + 1
    && (forall p <- s.srv.link :: !Carries(Some(p), s.held + 1))
    && (s.srv.phase.Writing? ==> !Carries(s.srv.phase.msg, s.held + 1))
  }

  ghost predicate CanOffer(f: Source, s: Sys) {
    Sound(f, s) && Underway(s) && s.held + 1 <= 0xFFFF && Within(f, s.held + 1) && !Forgotten(s)
  }

  predicate AboutToOffer(s: Sys) { s.srv.phase.Writing? && Carries(s.srv.phase.msg, s.held + 1) }

  lemma WritesIt(f: Source, s: Sys, len: nat)
    requires Proper(f) && AboutToOffer(s) && len <= |s.srv.link|
    ensures CanReach(Step(f), NothingArrives(), s, Offers(len, s.held + 1))
  {
    var t := Apply(f, s, Send(WriteOk));
    assert t.srv.link[|s.srv.link|] == s.srv.phase.msg.value;
    Already(Step(f), NothingArrives(), t, Offers(len, s.held + 1));
    Before(Step(f), NothingArrives(), s, Send(WriteOk), Offers(len, s.held + 1));
  }

  lemma ServeCanOffer(f: Source, s: Sys)
    requires CanOffer(f, s) && Enabled(s, Serve)
    ensures var t := Apply(f, s, Serve);
            && t.held == s.held && t.srv.link == s.srv.link && t.inbox.queue == s.inbox.queue[1..]
            && (AboutToOffer(t) ||
                  (CanOffer(f, t) && s.held + 2 > Settled(t.srv) >= Settled(s.srv) &&
                   (s.inbox.queue[0] == Ack(s.held) ==> Settled(t.srv) > Settled(s.srv))))
  {
    var p := s.inbox.queue[0];
    assert p in s.inbox.queue && Modest(s.held, p);
    assert forall q <- s.inbox.queue[1..] :: q in s.inbox.queue;
    assert 0 <= Settled(s.srv) - 1 <= s.held + 1 && s.got == Blocks(f.bytes, f.blockSize, s.held);
    assert |s.got| < |f.bytes|;
    ServeStaysSound(f, s);
    ServeGoesOn(f, s);
    hide Inv, Blocks, MaxBlkNo, ReadAt, Within;
  }

  lemma SendCanOffer(f: Source, s: Sys, e: Event)
    requires CanOffer(f, s) && (e.WriteOk? || e.Signalled?) && Enabled(s, Send(e)) && !AboutToOffer(s)
    ensures var t := Apply(f, s, Send(e));
            && CanOffer(f, t) && SameCount(s, t) && t.inbox.queue == s.inbox.queue && |t.srv.link| >= |s.srv.link|
            && Distance(t.srv, t.inbox) < Distance(s.srv, s.inbox)
  {
    StepStaysSound(f, s, Send(e));
    assert Housed(s.srv, s.live, s.inbox);
    hide Inv, Remembers;
    var t := Apply(f, s, Send(e));
    forall p <- s.srv.link ensures p in t.srv.link {}
  }

  lemma WakeCanOffer(f: Source, s: Sys)
    requires CanOffer(f, s) && Enabled(s, Wake)
    ensures var t := Apply(f, s, Wake);
            && CanOffer(f, t) && t.srv == s.srv && t.held == s.held && t.inbox.queue == s.inbox.queue
            && Distance(t.srv, t.inbox) < Distance(s.srv, s.inbox)
  {
    StepStaysSound(f, s, Wake);
    assert Housed(s.srv, s.live, s.inbox);
    hide Inv, Remembers;
  }

  lemma DeliveryCanOffer(f: Source, s: Sys, goal: Sys -> bool) returns (t: Sys)
    requires CanOffer(f, s) && Distance(s.srv, s.inbox) in {1, 3}
    ensures CanOffer(f, t) && t.srv == s.srv && t.held == s.held
    ensures t.inbox == Put(s.inbox, Ack(s.held)) && Distance(t.srv, t.inbox) < Distance(s.srv, s.inbox)
    ensures CanReach(Step(f), NothingArrives(), t, goal) ==> CanReach(Step(f), NothingArrives(), s, goal)
  {
    assert Housed(s.srv, s.live, s.inbox);
    var ack := Ack(s.held);
    var s1 := Apply(f, s, PeerSend(ack));
    t := Apply(f, s1, Deliver(ack));
    StepStaysSound(f, s, PeerSend(ack));
    StepStaysSound(f, s1, Deliver(ack));
    hide Sound, CanReach;
    if CanReach(Step(f), NothingArrives(), t, goal) {
      Before(Step(f), NothingArrives(), s1, Deliver(ack), goal);
      Before(Step(f), NothingArrives(), s, PeerSend(ack), goal);
    }
  }

  lemma {:induction false} OffersAgain(f: Source, s: Sys, len: nat)
    requires CanOffer(f, s) && len <= |s.srv.link|
    ensures CanReach(Step(f), NothingArrives(), s, Offers(len, s.held + 1))
    decreases s.held + 3 - Settled(s.srv), Stale(s.inbox.queue, Ack(s.held)), Distance(s.srv, s.inbox)
  {
    assert Settled(s.srv) - 1 <= s.held + 1 && Housed(s.srv, s.live, s.inbox);
    hide Sound, CanReach, Forgotten, Within;
    var goal := Offers(len, s.held + 1);
    if AboutToOffer(s) {
      WritesIt(f, s, len);
    } else if Distance(s.srv, s.inbox) in {1, 3} {
      var t := DeliveryCanOffer(f, s, goal);
      StaleAfterPut(s.inbox.queue, Ack(s.held));
      OffersAgain(f, t, len);
    } else {
      var a := if s.inbox.asleep then Wake else if s.srv.phase.Writing? then Send(WriteOk)
               else if s.srv.phase.Waiting? then Send(Signalled) else Serve;
      var t := Apply(f, s, a);
      if a.Wake? {
        WakeCanOffer(f, s);
        OffersAgain(f, t, len);
      } else if a.Send? {
        SendCanOffer(f, s, a.e);
        OffersAgain(f, t, len);
      } else {
        ServeCanOffer(f, s);
        StaleAfterTake(s.inbox.queue, Ack(s.held));
        if AboutToOffer(t) {
          WritesIt(f, t, len);
        } else {
          OffersAgain(f, t, len);
        }
      }
      Before(Step(f), NothingArrives(), s, a, goal);
    }
  }

  lemma StaysForgotten(f: Source, s: Sys, a: Action)
    requires Proper(f) && Inv(f, s) && Forgotten(s) && Enabled(s, a) && NothingArrives()(a)
    ensures Forgotten(Apply(f, s, a)) && Apply(f, s, a).held == s.held
  {
    hide ReadAt;
    match a
    case Serve =>
      assert Modest(s.held, s.inbox.queue[0]);
    case Send(e) =>
      if e.WriteOk? && s.srv.phase.msg.Some? {
        assert Copies(s.srv.phase.msg, 1) == [s.srv.phase.msg.value];
      }
    case _ =>
  }

  lemma ForgottenForever(f: Source, s: Sys, run: seq<Action>)
    requires Proper(f) && Inv(f, s) && Forgotten(s) && Run(Step(f), s, run) && AllOf(NothingArrives(), run)
    ensures forall p <- End(Step(f), s, run).srv.link :: !Carries(Some(p), s.held + 1)
  {
    var inv := (t: Sys) => Inv(f, t) && Forgotten(t) && t.held == s.held;
    forall t: Sys, a | NothingArrives()(a) && inv(t) && Step(f)(t, a).Some? ensures inv(Step(f)(t, a).value) {
      StepKeepsInv(f, t, a);
      StaysForgotten(f, t, a);
    }
    hide Inv;
    RunKeeps(Step(f), NothingArrives(), inv, s, run);
  }

  lemma CarriedIsWithin(f: Source, s: Sys, i: nat, n: nat)
    requires Inv(f, s) && i < |s.srv.link| && n > 0 && Carries(Some(s.srv.link[i]), n)
    ensures n <= 0xFFFF && Within(f, n)
  {
    assert Honest(f, Settled(s.srv) - 1, s.srv.link[i]);
  }

  /** Whatever of it is lost on the way: from every state of every run in which the session
      is open and nothing is queued that closes it, some continuation of the session puts
      the block that the peer needs next on the link once more if and only if the file has
      it, its number has 16 bits, and the session has not forgotten it. A block that it has
      put on the link before is never forgotten. */
  lemma {:induction false} OffersAgainExactly(f: Source, run: seq<Action>)
    requires Proper(f) && Run(Step(f), INIT, run) && Underway(End(Step(f), INIT, run))
    ensures var s := End(Step(f), INIT, run);
            && (CanReach(Step(f), NothingArrives(), s, Offers(|s.srv.link|, s.held + 1)) <==>
                  s.held + 1 <= 0xFFFF && Within(f, s.held + 1) && !Forgotten(s))
            && (forall p <- s.srv.link :: Carries(Some(p), s.held + 1) ==>
                  CanReach(Step(f), NothingArrives(), s, Offers(|s.srv.link|, s.held + 1)))
  {
    InitIsSound(f);
    RunStaysSound(f, INIT, run);
    var s := End(Step(f), INIT, run);
    var n := s.held + 1;
    hide Forgotten, Within, Remembers;
    if n <= 0xFFFF && Within(f, n) && !Forgotten(s) {
      OffersAgain(f, s, |s.srv.link|);
    }
    forall p | p in s.srv.link && Carries(Some(p), n) ensures n <= 0xFFFF && Within(f, n) && !Forgotten(s) {
      var i :| 0 <= i < |s.srv.link| && s.srv.link[i] == p;
      CarriedIsWithin(f, s, i, n);
      NotForgotten(s, p);
    }
    forall more | Run(Step(f), s, more) && AllOf(NothingArrives(), more)
                  && Offers(|s.srv.link|, n)(End(Step(f), s, more))
      ensures n <= 0xFFFF && Within(f, n) && !Forgotten(s)
    {
      var t := End(Step(f), s, more);
      var i :| |s.srv.link| <= i < |t.srv.link| && Carries(Some(t.srv.link[i]), n);
      RunKeepsInv(f, s, more);
      CarriedIsWithin(f, t, i, n);
      if Forgotten(s) {
        ForgottenForever(f, s, more);
      }
    }
  }

  lemma NotForgotten(s: Sys, p: Packet)
    requires p in s.srv.link && Carries(Some(p), s.held + 1)
    ensures !Forgotten(s)
  {
  }

  // ----- The end of the file is announced -----

  /** The transfer is complete and the last packet that the session has put on the link says
      so. */
  ghost function Told(f: Source): Sys -> bool {
    (s: Sys) => Finished(f, s) && s.srv.link != [] && s.srv.link[|s.srv.link| - 1] == Oack(ToWire(s.held + 1))
  }

  /** Whether taking these packets, when `top` blocks are counted, closes the session
      without a word: the request finds the file empty, or an acknowledgement of the last
      block comes before that block is counted. */
  predicate Silent(f: Source, top: int, queue: seq<Packet>)
    decreases |queue|
  {
    queue != [] &&
    match queue[0]
    case Rrq => f.bytes == [] || Silent(f, 1, queue[1..])
    case Ack(k) =>
      if k > top then !Within(f, k + 1) || Silent(f, k, queue[1..])
      else if k == top then Within(f, k + 1) && Silent(f, top + 1, queue[1..])
      else Silent(f, top, queue[1..])
    case _ => true
  }

  lemma {:induction false} SilentGrows(f: Source, top: int, queue: seq<Packet>, p: Packet)
    requires Silent(f, top, queue)
    ensures Silent(f, top, queue + [p])
    decreases |queue|
  {
    assert (queue + [p])[0] == queue[0] && (queue + [p])[1..] == queue[1..] + [p];
    match queue[0]
    case Rrq =>
      if f.bytes != [] {
        SilentGrows(f, 1, queue[1..], p);
      }
    case Ack(k) =>
      var next := if k > top then k as int else if k == top then top + 1 else top;
      if k <= top || Within(f, k + 1) {
        SilentGrows(f, next, queue[1..], p);
      }
    case _ =>
  }

  /** An acknowledgement of what is counted already does not close the session. */
  lemma {:induction false} NotSilentBy(f: Source, top: int, queue: seq<Packet>, k: Wire)
    requires !Silent(f, top, queue) && k <= top
    requires forall i :: 0 <= i < |queue| ==> queue[i].Ack? || (i == 0 && queue[i].Rrq? && top == 0)
    ensures !Silent(f, top, queue + [Ack(k)])
    decreases |queue|
  {
    if queue == [] {
      assert ([] + [Ack(k)])[1..] == [];
    } else {
      assert (queue + [Ack(k)])[0] == queue[0] && (queue + [Ack(k)])[1..] == queue[1..] + [Ack(k)];
      var j := queue[0];
      if j.Rrq? {
        NotSilentBy(f, 1, queue[1..], k);
      } else if j.blkNo == top && !Within(f, j.blkNo + 1) {
      } else {
        NotSilentBy(f, if j.blkNo > top then j.blkNo else if j.blkNo == top then top + 1 else top, queue[1..], k);
      }
    }
  }

  ghost predicate Telling(f: Source, s: Sys) {
    Hopeful(f, s, 0x1_0000) && !Silent(f, Settled(s.srv) - 1, s.inbox.queue)
  }

  lemma QueueShape(f: Source, s: Sys)
    requires Inv(f, s) && Underway(s)
    ensures forall i :: 0 <= i < |s.inbox.queue| ==>
              s.inbox.queue[i].Ack? || (i == 0 && s.inbox.queue[i].Rrq? && Settled(s.srv) == 1)
  {
    assert forall i :: 0 <= i < |s.inbox.queue| ==> s.inbox.queue[i] in s.inbox.queue;
  }

  /** The peer acknowledges the block counted last, and the dispatcher gets that. */
  lemma DeliveryTells(f: Source, s: Sys) returns (t: Sys)
    requires Telling(f, s) && 0 <= Settled(s.srv) - 1 <= s.held <= 0xFFFF && Distance(s.srv, s.inbox) in {1, 3}
    ensures Telling(f, t) && t.srv == s.srv && t.held == s.held
    ensures t.inbox == Put(s.inbox, Ack(Settled(s.srv) - 1)) && Distance(t.srv, t.inbox) < Distance(s.srv, s.inbox)
    ensures CanReach(Step(f), InSession(), t, Told(f)) ==> CanReach(Step(f), InSession(), s, Told(f))
  {
    assert Housed(s.srv, s.live, s.inbox);
    QueueShape(f, s);
    var ack := Ack(Settled(s.srv) - 1);
    NotSilentBy(f, Settled(s.srv) - 1, s.inbox.queue, Settled(s.srv) - 1);
    var s1 := Apply(f, s, PeerSend(ack));
    t := Apply(f, s1, Deliver(ack));
    StepKeepsInv(f, s, PeerSend(ack));
    StepKeepsInv(f, s1, Deliver(ack));
    hide Inv, CanReach, Silent;
    if CanReach(Step(f), InSession(), t, Told(f)) {
      Before(Step(f), InSession(), s1, Deliver(ack), Told(f));
      Before(Step(f), InSession(), s, PeerSend(ack), Told(f));
    }
  }

  lemma TakesSent(f: Source, s: Sys, n: nat) returns (p: Packet)
    requires Hopeful(f, s, n) && Sent(s, s.held + 1) && Settled(s.srv) == s.held + 2
    ensures Enabled(s, PeerTake(p))
    ensures var t := Apply(f, s, PeerTake(p));
            Hopeful(f, t, n) && t.held == s.held + 1 && t.srv == s.srv && t.inbox == s.inbox
  {
    p :| (p in s.srv.link || p in s.earlier) && Carries(Some(p), s.held + 1);
    assert Carries(Some(p), s.held + 1) && p.Data? && p.blkNo == s.held + 1;
    StepKeepsInv(f, s, PeerTake(p));
    hide Inv;
  }

  /** The session has come to the end of the file and is about to say so. */
  ghost predicate Telltale(f: Source, s: Sys) {
    Finished(f, s) && s.srv.phase.Writing? && s.srv.phase.msg == Some(Oack(ToWire(s.held + 1)))
  }

  lemma ServeTells(f: Source, s: Sys)
    requires Telling(f, s) && Settled(s.srv) <= s.held + 1 && Enabled(s, Serve)
    ensures var t := Apply(f, s, Serve);
            || Telltale(f, t)
            || (Telling(f, t) && Settled(t.srv) >= Settled(s.srv) && t.held == s.held
                && (s.inbox.queue[0] == Ack(Settled(s.srv) - 1) ==> Settled(t.srv) > Settled(s.srv)))
  {
    assert 0 <= Settled(s.srv) - 1 && s.held <= 0xFFFF;
    var p := s.inbox.queue[0];
    QueueShape(f, s);
    ServeStaysHopeful(f, s, 0x1_0000);
    ServedAcknowledgement(f, s);
    assert Modest(s.held, p);
    AtTheEnd(f, s.held, if p.Ack? then p.blkNo else 0);
    hide Inv, Lost, Blocks;
  }

  lemma AtTheEnd(f: Source, held: nat, k: nat)
    requires Proper(f) && k <= held && Within(f, held)
    ensures ReadAt(f.bytes, f.blockSize * k, f.blockSize) == [] <==> !Within(f, k + 1)
    ensures !Within(f, k + 1) ==> k == held
    ensures k >= MaxBlkNo(f) <==> !Within(f, k + 1)
  {
    hide ReadAt, MaxBlkNo;
    ReadsNothing(f.bytes, f.blockSize * k, f.blockSize);
    if k < held {
      TimesIsMonotone(f.blockSize, k, held - 1);
    }
    MaxIsLast(f, k);
  }

  lemma ReadsNothing(bytes: seq<Byte>, off: nat, len: nat)
    requires len > 0
    ensures ReadAt(bytes, off, len) == [] <==> off >= |bytes|
  {
  }

  lemma MaxIsLast(f: Source, k: nat)
    requires Proper(f)
    ensures k >= MaxBlkNo(f) <==> f.blockSize * k >= |f.bytes|
  {
    LastBlock(|f.bytes|, f.blockSize);
    var n := MaxBlkNo(f);
    hide MaxBlkNo;
    if k >= n {
      TimesIsMonotone(f.blockSize, n, k);
    } else {
      TimesIsMonotone(f.blockSize, k, n - 1);
    }
  }

  lemma SaysIt(f: Source, s: Sys)
    requires Proper(f) && Telltale(f, s)
    ensures CanReach(Step(f), InSession(), s, Told(f))
  {
    var t := Apply(f, s, Send(WriteOk));
    assert Copies(s.srv.phase.msg, 1) == [s.srv.phase.msg.value];
    Already(Step(f), InSession(), t, Told(f));
    Before(Step(f), InSession(), s, Send(WriteOk), Told(f));
  }

  /** The acknowledgement of the block counted last. */
  function AckOfTop(s: Sys): Packet {
    if 1 <= Settled(s.srv) <= 0x1_0000 then Ack(Settled(s.srv) - 1) else Error
  }

  /** What the thread does when there is a wait or a write before it. */
  function Onwards(s: Sys): Action {
    if s.inbox.asleep then Wake else if s.srv.phase.Writing? then Send(WriteOk) else Send(Signalled)
  }

  lemma OnwardsTells(f: Source, s: Sys)
    requires Telling(f, s) && Distance(s.srv, s.inbox) in {2, 4}
    ensures Enabled(s, Onwards(s))
    ensures var t := Apply(f, s, Onwards(s));
            && Telling(f, t) && SameCount(s, t) && t.inbox.queue == s.inbox.queue
            && Distance(t.srv, t.inbox) < Distance(s.srv, s.inbox)
  {
    assert Housed(s.srv, s.live, s.inbox);
    hide Inv, Lost, Silent;
    if s.inbox.asleep {
      WakeStaysHopeful(f, s, 0x1_0000);
    } else {
      SendStaysHopeful(f, s, 0x1_0000, Onwards(s).e);
    }
  }

  lemma {:induction false} Tells(f: Source, s: Sys)
    requires Telling(f, s)
    ensures CanReach(Step(f), InSession(), s, Told(f))
    decreases 2 * MaxBlkNo(f) + 4 - s.held - Settled(s.srv), Stale(s.inbox.queue, AckOfTop(s)),
              Distance(s.srv, s.inbox) + 1
  {
    CountsAreBounded(f, s);
    assert Housed(s.srv, s.live, s.inbox) && s.live;
    assert Settled(s.srv) == s.held + 2 && !Sent(s, s.held + 1) ==> s.srv.phase.Writing?;
    hide Inv, Lost, CanReach, MaxBlkNo, Silent, Sent;
    if Settled(s.srv) == s.held + 2 && Sent(s, s.held + 1) {
      var p := TakesSent(f, s, 0x1_0000);
      Tells(f, Apply(f, s, PeerTake(p)));
      Before(Step(f), InSession(), s, PeerTake(p), Told(f));
    } else if Distance(s.srv, s.inbox) in {1, 3} {
      var t := DeliveryTells(f, s);
      StaleAfterPut(s.inbox.queue, AckOfTop(s));
      Tells(f, t);
    } else if Distance(s.srv, s.inbox) == 0 {
      ServeThenTells(f, s);
    } else {
      OnwardsTells(f, s);
      Tells(f, Apply(f, s, Onwards(s)));
      Before(Step(f), InSession(), s, Onwards(s), Told(f));
    }
  }

  lemma {:induction false} ServeThenTells(f: Source, s: Sys)
    requires Telling(f, s) && Settled(s.srv) <= s.held + 1 && Enabled(s, Serve)
    ensures CanReach(Step(f), InSession(), s, Told(f))
    decreases 2 * MaxBlkNo(f) + 4 - s.held - Settled(s.srv), Stale(s.inbox.queue, AckOfTop(s)), 0
  {
    CountsAreBounded(f, s);
    hide Inv, Lost, CanReach, MaxBlkNo, Silent, Sent;
    var t := Apply(f, s, Serve);
    ServeTells(f, s);
    StaleAfterTake(s.inbox.queue, AckOfTop(s));
    if Telltale(f, t) {
      SaysIt(f, t);
    } else {
      Tells(f, t);
    }
    Before(Step(f), InSession(), s, Serve, Told(f));
  }

  lemma CountsAreBounded(f: Source, s: Sys)
    requires Hopeful(f, s, 0x1_0000)
    ensures 0 <= Settled(s.srv) - 1 <= s.held + 1 && s.held <= 0xFFFF && Settled(s.srv) - 1 <= 0xFFFF
    ensures s.held <= MaxBlkNo(f) && Settled(s.srv) - 1 <= MaxBlkNo(f)
  {
    HeldIsAtMostMaxBlkNo(f, s.held);
    HeldIsAtMostMaxBlkNo(f, Settled(s.srv) - 1);
    if Settled(s.srv) - 1 > 0xFFFF {
      TimesIsMonotone(f.blockSize, 0xFFFF, Settled(s.srv) - 2);
    }
  }

  /** A silent end is the end. */
  ghost predicate Untold(f: Source, s: Sys) {
    && (forall p <- s.srv.link :: !p.Oack?)
    && (s.srv.phase.Writing? && s.srv.phase.msg.Some? ==> !s.srv.phase.msg.value.Oack?)
    && (s.srv.state == ESTABLISHED ==> Silent(f, Settled(s.srv) - 1, s.inbox.queue))
  }

  lemma StaysUntold(f: Source, s: Sys, a: Action)
    requires Proper(f) && Inv(f, s) && Untold(f, s) && Enabled(s, a) && !a.Open?
    ensures Untold(f, Apply(f, s, a))
  {
    match a
    case Serve =>
      var p := s.inbox.queue[0];
      assert Modest(s.held, p);
      AtTheEnd(f, s.held, if p.Ack? then p.blkNo else 0);
      hide Inv, Blocks, MaxBlkNo, ReadAt, Within;
    case Deliver(p) =>
      hide Inv;
      if s.srv.state == ESTABLISHED && !IsRequest(p) {
        SilentGrows(f, Settled(s.srv) - 1, s.inbox.queue, p);
      }
    case Send(e) =>
      hide Silent;
      if e.WriteOk? && s.srv.phase.msg.Some? {
        assert Copies(s.srv.phase.msg, 1) == [s.srv.phase.msg.value];
      }
    case _ =>
      hide Silent;
  }

  lemma UntoldForever(f: Source, s: Sys, run: seq<Action>)
    requires Proper(f) && Inv(f, s) && Untold(f, s) && Run(Step(f), s, run) && AllOf(InSession(), run)
    ensures !Told(f)(End(Step(f), s, run))
  {
    var inv := (t: Sys) => Inv(f, t) && Untold(f, t);
    forall t: Sys, a | InSession()(a) && inv(t) && Step(f)(t, a).Some? ensures inv(Step(f)(t, a).value) {
      StepKeepsInv(f, t, a);
      StaysUntold(f, t, a);
    }
    hide Inv;
    RunKeeps(Step(f), InSession(), inv, s, run);
  }

  /** In the first session no acknowledgement is ahead, so only an empty file ends it
      without a word. */
  lemma {:induction false} NeverSilent(f: Source, top: int, queue: seq<Packet>)
    requires f.bytes != [] && 0 <= top
    requires forall p <- queue :: p.Rrq? || (p.Ack? && p.blkNo <= top)
    requires forall i :: 0 <= i < |queue| ==> queue[i].Ack? || (i == 0 && top == 0)
    ensures !Silent(f, top, queue)
    decreases |queue|
  {
    if queue != [] {
      var p := queue[0];
      assert p in queue;
      assert forall q <- queue[1..] :: q in queue && q.Ack?;
      NeverSilent(f, if p.Rrq? then 1 else if p.blkNo == top then top + 1 else top, queue[1..]);
    }
  }

  lemma FirstSilentExactly(f: Source, s: Sys)
    requires Proper(f) && Inv(f, s) && Underway(s)
    ensures f.bytes == [] ==> Silent(f, Settled(s.srv) - 1, s.inbox.queue)
    ensures s.sessions <= 1 && f.bytes != [] ==> !Silent(f, Settled(s.srv) - 1, s.inbox.queue)
  {
    if s.sessions <= 1 && f.bytes != [] {
      QueueShape(f, s);
      forall p <- s.inbox.queue ensures p.Rrq? || (p.Ack? && p.blkNo <= Settled(s.srv) - 1) {
        assert Modest(s.held, p);
      }
      NeverSilent(f, Settled(s.srv) - 1, s.inbox.queue);
    }
  }

  /** From every state of every run in which the session is open and nothing is queued that
      closes it, this session can complete the transfer and announce that as its last
      packet if and only if the file has at most 65535 blocks, the block that the peer needs
      next is not lost, and no queued packet closes the session without a word. In the first
      session that last condition is that the file is not empty. */
  lemma {:induction false} ToldExactly(f: Source, run: seq<Action>)
    requires Proper(f) && Run(Step(f), INIT, run) && Underway(End(Step(f), INIT, run))
    ensures var s := End(Step(f), INIT, run);
            var silent := Silent(f, Settled(s.srv) - 1, s.inbox.queue);
            && (CanReach(Step(f), InSession(), s, Told(f)) <==>
                  |f.bytes| <= 0xFFFF * f.blockSize && !Lost(f, s) && !silent)
            && (s.sessions <= 1 ==> (silent <==> f.bytes == []))
  {
    InitIsSound(f);
    RunStaysSound(f, INIT, run);
    var s := End(Step(f), INIT, run);
    FirstSilentExactly(f, s);
    hide Silent, Lost, Finished;
    if |f.bytes| <= 0xFFFF * f.blockSize && !Lost(f, s) && !Silent(f, Settled(s.srv) - 1, s.inbox.queue) {
      Tells(f, s);
    }
    forall more | Run(Step(f), s, more) && AllOf(InSession(), more) && Told(f)(End(Step(f), s, more))
      ensures |f.bytes| <= 0xFFFF * f.blockSize && !Lost(f, s) && !Silent(f, Settled(s.srv) - 1, s.inbox.queue)
    {
      RunKeepsInv(f, s, more);
      FinishedHoldsAll(f, End(Step(f), s, more), 0);
      if Lost(f, s) {
        LostForever(f, s, more);
      }
      if Silent(f, Settled(s.srv) - 1, s.inbox.queue) {
        UntoldForever(f, s, more);
      }
    }
  }

  /** A session that finds an acknowledgement of the last block leaves its sender only with
      that announcement as its last packet, or with a packet that the link layer has
      refused. */
  ghost predicate Announcing(s: Sys, p: Packet) {
    && s.srv.state == CLOSED
    && (s.srv.phase.Ready? || s.srv.phase.msg == Some(p))
    && (s.srv.phase.Writing? || (s.srv.link != [] && s.srv.link[|s.srv.link| - 1] == p))
  }

  /** No session that has met the acknowledgement of the last block ends without offering the
      announcement to the link. */
  lemma {:induction false} EndIsAnnounced(f: Source, s: Sys, run: seq<Action>)
    requires Proper(f) && Inv(f, s) && Enabled(s, Serve) && AckAtEof(f, s.srv, s.inbox.queue[0])
    requires Run(Step(f), Apply(f, s, Serve), run) && AllOf(InSession(), run)
    ensures var t := End(Step(f), Apply(f, s, Serve), run);
            t.srv.phase.Ready? && Send(WriteFailed) !in run ==>
              && s.got == f.bytes && t.srv.link != []
              && t.srv.link[|t.srv.link| - 1] == Oack(ToWire(s.srv.nextBlkNo))
  {
    ServedAcknowledgement(f, s);
    hide Inv, ReadAt, MaxBlkNo, Blocks;
    var u := Apply(f, s, Serve);
    var p := Oack(ToWire(s.srv.nextBlkNo));
    var inv := (t: Sys) => Announcing(t, p);
    var allowed := (a: Action) => !a.Open? && a != Send(WriteFailed);
    forall t: Sys, a | allowed(a) && inv(t) && Step(f)(t, a).Some? ensures inv(Step(f)(t, a).value) {
      AnnouncingStays(f, t, a, p);
    }
    if Send(WriteFailed) !in run {
      forall i | 0 <= i < |run| ensures allowed(run[i]) {
        assert InSession()(run[i]);
      }
      RunKeeps(Step(f), allowed, inv, u, run);
    }
  }

  lemma AnnouncingStays(f: Source, s: Sys, a: Action, p: Packet)
    requires Proper(f) && Announcing(s, p) && Enabled(s, a) && !a.Open? && a != Send(WriteFailed)
    ensures Announcing(Apply(f, s, a), p)
  {
    if a == Send(WriteOk) {
      assert Copies(Some(p), 1) == [p];
    }
  }
}
