/** A read transfer: server, peer and network. */
module EftpRead {
  import opened Basics
  import opened EftpSession
  import opened EftpFile
  import opened EftpInbox
  import opened Runs

  // The server side is the packet handler of the read-request strategy; the peer takes
  // blocks in order and acknowledges only what it holds; the network loses, repeats and
  // reorders.

  /** The file that is being read, and the block size. */
  datatype Source = Source(bytes: seq<Byte>, blockSize: nat)

  ghost predicate Proper(f: Source) { f.blockSize > 0 }

  function MaxBlkNo(f: Source): nat
    requires f.blockSize > 0
  {
    (|f.bytes| + f.blockSize - 1) / f.blockSize
  }

  const FRESH_CORE := Core(ESTABLISHED, 1, 0, None, [], Ready)

  /** The handler, up to the first write of the packet that it sends, if any. */
  function Handle(f: Source, c: Core, p: Packet): Core
    requires f.blockSize > 0 && c.phase.Ready?
  {
    match p
    case Rrq =>
      var content := ReadAt(f.bytes, 0, f.blockSize);
      if content == [] then c.(state := CLOSED)
      else StartSend(c, Some(Data(ToWire(c.nextBlkNo), content)), 2)
    case Ack(k) =>
      if k > c.nextBlkNo - 1 then
        var ahead := c.(nextBlkNo := k + 1, lastAckNo := k);
        if k < MaxBlkNo(f) then ahead
        else if k == MaxBlkNo(f) || k == MaxBlkNo(f) + 1 then ahead.(state := CLOSED)
        else StartSend(ahead.(state := CLOSING), Some(Error), k + 1)
      else if k == c.nextBlkNo - 1 then
        var content := ReadAt(f.bytes, f.blockSize * k, f.blockSize);
        if content != [] then
          StartSend(c.(lastAckNo := k), Some(Data(ToWire(c.nextBlkNo), content)), c.nextBlkNo + 1)
        else
          StartSend(c.(lastAckNo := k, state := CLOSED), Some(Oack(ToWire(c.nextBlkNo))), c.nextBlkNo)
      else
        StartSend(c, c.lastSent, c.nextBlkNo)
    case _ => c.(state := CLOSED)
  }

  /** The two branches that the properties below speak of. */
  predicate AckAhead(c: Core, p: Packet) { p.Ack? && p.blkNo > c.nextBlkNo - 1 }

  predicate AckAtEof(f: Source, c: Core, p: Packet) {
    p.Ack? && p.blkNo == c.nextBlkNo - 1 && ReadAt(f.bytes, f.blockSize * p.blkNo, f.blockSize) == []
  }

  /** The read-request strategy of a session. */
  class RrqStrategy {
    const file: Source
    const session: Session
    var fileMaxBlkNo: nat
    var nextBlkNo: int
    var lastAckNo: int

    /** `Open` of a file that exists. */
    constructor (file: Source, session: Session)
      requires file.blockSize > 0
      ensures this.file == file && this.session == session
      ensures fileMaxBlkNo == MaxBlkNo(file) && nextBlkNo == 1 && lastAckNo == 0
    {
      this.file, this.session := file, session;
      fileMaxBlkNo := (|file.bytes| + file.blockSize - 1) / file.blockSize;
      nextBlkNo, lastAckNo := 1, 0;
    }

    ghost predicate Valid()
      reads this
    {
      file.blockSize > 0 && fileMaxBlkNo == MaxBlkNo(file)
    }

    ghost function Abstract(): Core
      reads this, session
    {
      Core(session.state, nextBlkNo, lastAckNo, session.lastSentMsg, session.link, Ready)
    }

    /** `rounds` is what the operating system answers to the send loop. */
    method HandlePkt(p: Packet, rounds: seq<Round>)
      requires Valid() && |rounds| == MAX_TIMEOUT_COUNT
      modifies this, session
      ensures Valid()
      ensures var c := Handle(file, old(Abstract()), p);
              Abstract() == if c.phase.Ready? then c else AfterSend(c, rounds)
    {
      match p {
        case Rrq =>
          var content := ReadAt(file.bytes, 0, file.blockSize);
          if |content| == 0 {
            session.SilentShutdown();
            return;
          }
          session.SendData(Some(Data(ToWire(nextBlkNo), content)), rounds);
          nextBlkNo := 2;
        case Ack(blkNo) =>
          if blkNo > nextBlkNo - 1 {
            nextBlkNo := blkNo + 1;
            lastAckNo := blkNo;
            if blkNo >= fileMaxBlkNo {
              if blkNo == fileMaxBlkNo || blkNo == fileMaxBlkNo + 1 {
                session.SilentShutdown();
              } else {
                session.LoudShutdown();
                session.SendData(Some(Error), rounds);
              }
            }
          } else if blkNo == nextBlkNo - 1 {
            lastAckNo := blkNo;
            var content := ReadAt(file.bytes, file.blockSize * blkNo, file.blockSize);
            if |content| > 0 {
              session.SendData(Some(Data(ToWire(nextBlkNo), content)), rounds);
              nextBlkNo := nextBlkNo + 1;
            } else {
              session.SilentShutdown();
              session.SendData(Some(Oack(ToWire(nextBlkNo))), rounds);
            }
          } else {
            session.ResendData(rounds);
          }
        case _ =>
          session.SilentShutdown();
      }
    }
  }

  // ----- The transfer as a transition system -----

  /** `toServer` is every packet the peer ever sent, `srv.link` every packet this session
      and `earlier` every packet former sessions sent; delivering any of them, at any
      time, any number of times or never covers loss, repetition and reordering. `live`
      says that a session is registered and `sessions` counts the sessions so far. `held`
      counts the blocks the peer holds and `got` is their contents. */
  datatype Sys = Sys(
    srv: Core, live: bool, sessions: nat, inbox: Inbox, earlier: set<Packet>,
    toServer: set<Packet>, held: nat, got: seq<Byte>)

  /** The peer has sent its request, and no session is registered yet. */
  const INIT := Sys(FRESH_CORE.(state := CLOSED), false, 0, EMPTY, {}, {Rrq}, 0, [])

  datatype Action =
    | Deliver(p: Packet)     // the dispatcher gets a packet of the peer
    | Open(asleep: bool)     // it gets the request while no session is registered
    | Serve                  // the session thread takes one packet and runs the handler
    | Doze                   // it finds no packet and waits for the event
    | Wake
    | Resend                 // the session thread in state CLOSING
    | Unregister             // the session thread in state CLOSED
    | Send(e: Event)         // one step of the send loop
    | PeerTake(p: Packet)
    | PeerSend(p: Packet)

  /** The session thread is at the head of its loop. */
  predicate Free(s: Sys) { s.live && s.srv.phase.Ready? && !s.inbox.asleep }

  predicate Enabled(s: Sys, a: Action) {
    match a
    case Deliver(p) => p in s.toServer && (IsRequest(p) ==> s.live)
    case Open(_) => Rrq in s.toServer && !s.live
    case Serve => Free(s) && s.srv.state == ESTABLISHED && s.inbox.queue != []
    case Doze => Free(s) && s.srv.state == ESTABLISHED && s.inbox.queue == []
    case Wake => s.inbox.asleep && s.inbox.event
    case Resend => Free(s) && s.srv.state == CLOSING
    case Unregister => Free(s) && s.srv.state == CLOSED
    case Send(e) => Accepts(s.srv, e) && Possible(s.inbox, e)
    case PeerTake(p) => p in s.srv.link || p in s.earlier
    case PeerSend(p) => p.Rrq? || p.Error? || (p.Ack? && p.blkNo <= s.held)
  }

  function Apply(f: Source, s: Sys, a: Action): Sys
    requires f.blockSize > 0 && Enabled(s, a)
  {
    match a
    case Deliver(p) =>
      // a request is refused while its session is registered, any other packet while none is
      if IsRequest(p) || !s.live then s else s.(inbox := Put(s.inbox, p))
    case Open(asleep) =>
      s.(srv := FRESH_CORE, live := true, sessions := s.sessions + 1, inbox := Inbox([Rrq], true, asleep),
         earlier := s.earlier + set p | p in s.srv.link)
    case Serve =>
      s.(srv := Handle(f, s.srv, s.inbox.queue[0]), inbox := s.inbox.(queue := s.inbox.queue[1..]))
    case Doze => s.(inbox := s.inbox.(asleep := true))
    case Wake => s.(inbox := s.inbox.(asleep := false, event := false))
    case Resend => s.(srv := StartSend(s.srv, s.srv.lastSent, s.srv.nextBlkNo))
    case Unregister => s.(live := false, inbox := EMPTY)
    case Send(e) => s.(srv := SendStep(s.srv, e), inbox := AfterEvent(s.inbox, e))
    case PeerTake(p) =>
      if p.Data? && p.blkNo == s.held + 1 then s.(held := s.held + 1, got := s.got + p.payload) else s
    case PeerSend(p) => s.(toServer := s.toServer + {p})
  }

  function Step(f: Source): (Sys, Action) -> Option<Sys> {
    (s: Sys, a: Action) => if f.blockSize > 0 && Enabled(s, a) then Some(Apply(f, s, a)) else None
  }

  // ----- What every step keeps -----

  /** A numbered data packet carries the block of its number, and no number is
      ahead of the bound. */
  ghost predicate Honest(f: Source, bound: int, p: Packet) {
    p.Data? && p.blkNo > 0 ==>
      p.blkNo <= bound && Within(f, p.blkNo) && p.payload == Block(f.bytes, f.blockSize, p.blkNo)
  }

  /** The file has an n-th block. */
  predicate Within(f: Source, n: nat) { n > 0 ==> f.blockSize * (n - 1) < |f.bytes| }

  ghost predicate HonestMsg(f: Source, bound: int, m: Option<Packet>) {
    m.Some? ==> Honest(f, bound, m.value)
  }

  /** Acknowledgements on their way never exceed what the peer holds. */
  ghost predicate Modest(held: nat, p: Packet) { p.Ack? ==> p.blkNo <= held }

  /** What the sessions have sent is honest, and what may be sent again is on the link. */
  ghost predicate HonestServer(f: Source, s: Sys) {
    var top := Settled(s.srv) - 1;
    && (forall p <- s.srv.link :: Honest(f, top, p))
    && (forall p <- s.earlier :: Honest(f, s.held + 1, p))
    && (s.srv.lastSent.Some? ==> s.srv.lastSent.value in s.srv.link)
    && (s.srv.phase.Writing? ==> HonestMsg(f, top, s.srv.phase.msg))
    && (s.srv.phase.Waiting? && s.srv.phase.msg.Some? ==> s.srv.phase.msg.value in s.srv.link)
  }

  /** A request comes first in its session, and nothing has been counted before it. */
  ghost predicate RequestFirst(s: Sys) {
    && (forall i :: 1 <= i < |s.inbox.queue| ==> !IsRequest(s.inbox.queue[i]))
    && (s.inbox.queue != [] && IsRequest(s.inbox.queue[0]) ==> s.srv == FRESH_CORE && s.inbox.queue[0] == Rrq)
    && (s.srv.state == ESTABLISHED && Settled(s.srv) == 1 ==> s.inbox.queue != [] && s.inbox.queue[0] == Rrq)
  }

  /** While there has been one session at most. */
  ghost predicate FirstSession(s: Sys) {
    s.earlier == {} && s.held <= Settled(s.srv) - 1 && (s.sessions == 0 ==> s.srv == FRESH_CORE.(state := CLOSED))
  }

  ghost predicate Inv(f: Source, s: Sys) {
    var top := Settled(s.srv) - 1;
    && Housed(s.srv, s.live, s.inbox)
    && s.srv.state != CLOSING && (s.sessions == 0 ==> !s.live)
    && 0 <= top <= s.held + 1 && Within(f, top)
    && s.held <= 0xFFFF && Within(f, s.held) && s.got == Blocks(f.bytes, f.blockSize, s.held)
    && HonestServer(f, s)
    && (forall p <- s.inbox.queue :: Modest(s.held, p))
    && Rrq in s.toServer && (forall p <- s.toServer :: Modest(s.held, p))
    && RequestFirst(s)
    && (s.sessions <= 1 ==> FirstSession(s))
  }

  lemma HeldIsAtMostMaxBlkNo(f: Source, n: nat)
    requires Proper(f) && Within(f, n)
    ensures n <= MaxBlkNo(f)
    ensures n == MaxBlkNo(f) ==> Blocks(f.bytes, f.blockSize, n) == f.bytes
  {
    LastBlock(|f.bytes|, f.blockSize);
    if n > MaxBlkNo(f) {
      TimesIsMonotone(f.blockSize, MaxBlkNo(f), n - 1);
    }
  }

  /** What is left in the queue is no request. */
  lemma RestOfQueue(s: Sys)
    requires RequestFirst(s) && s.inbox.queue != []
    ensures forall q <- s.inbox.queue[1..] :: q in s.inbox.queue && !IsRequest(q)
  {
  }

  lemma ServeRequestKeepsInv(f: Source, s: Sys)
    requires Proper(f) && Inv(f, s) && Enabled(s, Serve) && s.inbox.queue[0].Rrq?
    ensures Inv(f, Apply(f, s, Serve))
  {
    hide Blocks;
    RestOfQueue(s);
    NextBlock(f.bytes, f.blockSize, 0);
  }

  lemma ServeAheadKeepsInv(f: Source, s: Sys)
    requires Proper(f) && Inv(f, s) && Enabled(s, Serve) && AckAhead(s.srv, s.inbox.queue[0])
    ensures Inv(f, Apply(f, s, Serve))
  {
    var p := s.inbox.queue[0];
    assert Modest(s.held, p);
    assert Within(f, p.blkNo) by { TimesIsMonotone(f.blockSize, p.blkNo - 1, s.held - 1); }
    HeldIsAtMostMaxBlkNo(f, s.held);
    RestOfQueue(s);
    hide Blocks, MaxBlkNo, ReadAt, Within;
  }

  /** The packet that answers the acknowledgement of block k. */
  lemma AnswerIsHonest(f: Source, k: Wire, link: seq<Packet>)
    requires Proper(f) && forall p <- link :: Honest(f, k, p)
    ensures var content := ReadAt(f.bytes, f.blockSize * k, f.blockSize);
            content != [] ==> Within(f, k + 1) && Honest(f, k + 1, Data(ToWire(k + 1), content))
    ensures Honest(f, k, Oack(ToWire(k + 1))) && forall p <- link :: Honest(f, k + 1, p)
  {
    NextBlock(f.bytes, f.blockSize, k);
    assert ToWire(k + 1) > 0 ==> ToWire(k + 1) == k + 1;
  }

  lemma ServeNextKeepsInv(f: Source, s: Sys)
    requires Proper(f) && Inv(f, s) && Enabled(s, Serve)
    requires s.inbox.queue[0].Ack? && s.inbox.queue[0].blkNo == s.srv.nextBlkNo - 1
    ensures Inv(f, Apply(f, s, Serve))
  {
    hide Blocks, MaxBlkNo, ReadAt, Within, Honest, ToWire;
    var p := s.inbox.queue[0];
    assert Modest(s.held, p);
    RestOfQueue(s);
    AnswerIsHonest(f, p.blkNo, s.srv.link);
  }

  lemma ServeKeepsInv(f: Source, s: Sys)
    requires Proper(f) && Inv(f, s) && Enabled(s, Serve)
    ensures Inv(f, Apply(f, s, Serve))
  {
    hide Blocks, MaxBlkNo, ReadAt, Within, Honest;
    var p := s.inbox.queue[0];
    if p.Rrq? {
      ServeRequestKeepsInv(f, s);
    } else if p.Ack? && p.blkNo > s.srv.nextBlkNo - 1 {
      ServeAheadKeepsInv(f, s);
    } else if p.Ack? && p.blkNo == s.srv.nextBlkNo - 1 {
      ServeNextKeepsInv(f, s);
    } else {
      RestOfQueue(s);
    }
  }

  lemma PeerTakeKeepsInv(f: Source, s: Sys, p: Packet)
    requires Proper(f) && Inv(f, s) && Enabled(s, PeerTake(p))
    ensures Inv(f, Apply(f, s, PeerTake(p)))
  {
    if p.Data? && p.blkNo == s.held + 1 {
      assert Honest(f, s.held + 1, p);
      NextBlock(f.bytes, f.blockSize, s.held);
      var t := Apply(f, s, PeerTake(p));
      forall q | q in t.inbox.queue || q in t.toServer ensures Modest(t.held, q) {
        assert Modest(s.held, q);
      }
      forall q <- t.earlier ensures Honest(f, t.held + 1, q) {
        assert Honest(f, s.held + 1, q);
      }
    }
  }

  lemma SendKeepsInv(f: Source, s: Sys, e: Event)
    requires Proper(f) && Inv(f, s) && Enabled(s, Send(e))
    ensures Inv(f, Apply(f, s, Send(e)))
  {
    hide Honest, Within;
    if e.WriteOk? && s.srv.phase.msg.Some? {
      assert Copies(s.srv.phase.msg, 1) == [s.srv.phase.msg.value];
    }
  }

  lemma StepKeepsInv(f: Source, s: Sys, a: Action)
    requires Proper(f) && Inv(f, s) && Enabled(s, a)
    ensures Inv(f, Apply(f, s, a))
  {
    match a
    case Deliver(p) =>
      assert Modest(s.held, p);
    case Serve => ServeKeepsInv(f, s);
    case Send(e) => SendKeepsInv(f, s, e);
    case PeerTake(p) => PeerTakeKeepsInv(f, s, p);
    case Open(_) => OpenKeepsInv(f, s, a);
    case _ =>
  }

  lemma OpenKeepsInv(f: Source, s: Sys, a: Action)
    requires Proper(f) && Inv(f, s) && a.Open? && Enabled(s, a)
    ensures Inv(f, Apply(f, s, a))
  {
    forall p <- s.srv.link ensures Honest(f, s.held + 1, p) {
      assert Honest(f, Settled(s.srv) - 1, p);
    }
    assert s.srv.link == [] ==> (set p | p in s.srv.link) == {};
  }

  lemma StepsKeepInv(f: Source)
    requires Proper(f)
    ensures Kept(Step(f), Anything(), (s: Sys) => Inv(f, s))
    ensures Inv(f, INIT)
  {
    forall s: Sys, a | Inv(f, s) && Step(f)(s, a).Some? ensures Inv(f, Step(f)(s, a).value) {
      StepKeepsInv(f, s, a);
    }
  }

  lemma RunKeepsInv(f: Source, s: Sys, run: seq<Action>)
    requires Proper(f) && Inv(f, s) && Run(Step(f), s, run)
    ensures Inv(f, End(Step(f), s, run))
  {
    StepsKeepInv(f);
    RunKeeps(Step(f), Anything(), (s: Sys) => Inv(f, s), s, run);
  }

  // ----- Whole runs -----

  /** Safety of every run, over any number of sessions, for files of any size and blocks
      of any size: the peer holds a prefix of the file, the server is at most one block
      ahead, the error packet is never sent, and the session is closed at the end of the
      file, by whichever branch, only when the peer holds all of it. An acknowledgement is
      ahead of the server only after a session was opened again. */
  lemma {:induction false} ReadTransferIsSafe(f: Source, run: seq<Action>)
    requires Proper(f) && Run(Step(f), INIT, run)
    ensures var s := End(Step(f), INIT, run);
            && s.got <= f.bytes
            && s.got == Blocks(f.bytes, f.blockSize, s.held)
            && Settled(s.srv) - 1 <= s.held + 1
            && (s.sessions <= 1 ==> s.held <= Settled(s.srv) - 1)
            && s.srv.state != CLOSING
            && (Enabled(s, Serve) ==>
                  var p := s.inbox.queue[0];
                  && (AckAhead(s.srv, p) ==> s.sessions >= 2 && p.blkNo <= s.held)
                  && (AckAhead(s.srv, p) && p.blkNo >= MaxBlkNo(f) ==> s.got == f.bytes)
                  && (AckAtEof(f, s.srv, p) ==> s.got == f.bytes))
  {
    hide Inv, Enabled, AckAhead, AckAtEof, Blocks, MaxBlkNo;
    StepsKeepInv(f);
    RunKeepsInv(f, INIT, run);
    var s := End(Step(f), INIT, run);
    InvIsSafe(f, s);
    if Enabled(s, Serve) {
      ServedAcknowledgement(f, s);
    }
  }

  lemma InvIsSafe(f: Source, s: Sys)
    requires Proper(f) && Inv(f, s)
    ensures s.got <= f.bytes && s.got == Blocks(f.bytes, f.blockSize, s.held)
    ensures Settled(s.srv) - 1 <= s.held + 1 && s.srv.state != CLOSING
    ensures s.sessions <= 1 ==> s.held <= Settled(s.srv) - 1
  {
  }

  lemma ServedAcknowledgement(f: Source, s: Sys)
    requires Proper(f) && Inv(f, s) && Enabled(s, Serve)
    ensures var p := s.inbox.queue[0];
            && (AckAhead(s.srv, p) ==> s.sessions >= 2 && p.blkNo <= s.held)
            && (AckAhead(s.srv, p) && p.blkNo >= MaxBlkNo(f) ==> s.got == f.bytes)
            && (AckAtEof(f, s.srv, p) ==> s.got == f.bytes)
  {
    hide MaxBlkNo;
    var p := s.inbox.queue[0];
    assert Modest(s.held, p);
    HeldIsAtMostMaxBlkNo(f, s.held);
    if AckAtEof(f, s.srv, p) {
      BlocksGrow(f.bytes, f.blockSize, p.blkNo, s.held);
    }
  }

  // ----- A peer that acknowledges what was never there -----

  lemma NumberedBlocks(f: Source, n: nat)
    requires Proper(f)
    ensures Within(f, n) <==> n <= MaxBlkNo(f)
  {
    LastBlock(|f.bytes|, f.blockSize);
    if Within(f, n) {
      HeldIsAtMostMaxBlkNo(f, n);
    } else if n <= MaxBlkNo(f) {
      TimesIsMonotone(f.blockSize, n - 1, MaxBlkNo(f) - 1);
    }
  }

  /** Whoever the peer is: an acknowledgement starts to close an open session with an error
      packet exactly when it is ahead and the block before the acknowledged one is not in
      the file. The packet is then written until two writes in a row are not answered. */
  lemma AckBeyondEnd(f: Source, c: Core, k: Wire)
    requires Proper(f) && c.phase.Ready? && c.state == ESTABLISHED && c.nextBlkNo >= 1
    ensures Handle(f, c, Ack(k)).state == CLOSING <==> k >= c.nextBlkNo && !Within(f, k - 1)
    ensures k >= c.nextBlkNo && !Within(f, k - 1) ==>
              var t := Handle(f, c, Ack(k));
              && AcceptsAll(t, [WriteOk, Signalled]) && AcceptsAll(t, [WriteOk, Expired, WriteOk, Expired])
              && Steps(t, [WriteOk, Signalled]) ==
                   Core(CLOSING, k + 1, k, Some(Error), c.link + [Error], Ready)
              && Steps(t, [WriteOk, Expired, WriteOk, Expired]) ==
                   Core(CLOSED, k + 1, k, Some(Error), c.link + [Error, Error], Ready)
  {
    if k > 0 {
      NumberedBlocks(f, k - 1);
    }
    hide MaxBlkNo, Within, Steps, AcceptsAll;
    UnansweredTwice(c.(nextBlkNo := k + 1, lastAckNo := k, state := CLOSING), Error, k + 1);
  }
}
