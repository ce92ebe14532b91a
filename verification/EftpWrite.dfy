/** A write transfer: server, peer and network. */
module EftpWrite {
  import opened Basics
  import opened EftpSession
  import opened EftpFile
  import opened EftpInbox
  import opened Runs

  // The server side is the packet handler of the write-request strategy; every data packet
  // of the peer carries the block of its number; the network loses, repeats and reorders.

  const FRESH_CORE := Core(ESTABLISHED, 1, 0, None, [], Ready)

  /** The session together with the file that it writes. */
  datatype Receiver = Receiver(core: Core, stored: seq<Byte>)

  /** The handler, up to the first write of the packet that it sends, if any.
      `accepted` is how many bytes `fwrite` is willing to take. */
  function Handle(blockSize: nat, r: Receiver, p: Packet, accepted: nat): Receiver
    requires r.core.phase.Ready? && r.core.nextBlkNo >= 1
  {
    var c := r.core;
    match p
    case Wrq => r.(core := StartSend(c, Some(Ack(0)), c.nextBlkNo))
    case Data(k, payload) =>
      if k != c.nextBlkNo then
        r.(core := StartSend(c, Some(Ack(ToWire(c.nextBlkNo - 1))), c.nextBlkNo))
      else
        var stored := WriteAt(r.stored, blockSize * (k - 1), payload[..Min(accepted, |payload|)]);
        if accepted < |payload| then Receiver(c.(state := CLOSED), stored)
        else Receiver(StartSend(c.(nextBlkNo := k + 1), Some(Ack(k)), k + 1), stored)
    case _ => r.(core := c.(state := CLOSED))
  }

  /** The write-request strategy of a session. */
  class WrqStrategy {
    const blockSize: nat
    const session: Session
    var stored: seq<Byte>
    var nextBlkNo: int

    /** `Open`: the file is truncated. */
    constructor (blockSize: nat, session: Session)
      ensures this.blockSize == blockSize && this.session == session
      ensures nextBlkNo == 1 && stored == []
    {
      this.blockSize, this.session := blockSize, session;
      nextBlkNo, stored := 1, [];
    }

    ghost function Abstract(): Receiver
      reads this, session
    {
      Receiver(Core(session.state, nextBlkNo, 0, session.lastSentMsg, session.link, Ready), stored)
    }

    method HandlePkt(p: Packet, accepted: nat, rounds: seq<Round>)
      requires nextBlkNo >= 1 && |rounds| == MAX_TIMEOUT_COUNT
      modifies this, session
      ensures nextBlkNo >= 1
      ensures var r := Handle(blockSize, old(Abstract()), p, accepted);
              Abstract() == if r.core.phase.Ready? then r else r.(core := AfterSend(r.core, rounds))
    {
      match p {
        case Wrq =>
          session.SendData(Some(Ack(0)), rounds);
        case Data(blkNo, payload) =>
          if blkNo != nextBlkNo {
            session.SendData(Some(Ack(ToWire(nextBlkNo - 1))), rounds);
            return;
          }
          var writeLength := Min(accepted, |payload|);
          stored := WriteAt(stored, blockSize * (blkNo - 1), payload[..writeLength]);
          if writeLength != |payload| {
            session.SilentShutdown();
            return;
          }
          nextBlkNo := nextBlkNo + 1;
          session.SendData(Some(Ack(blkNo)), rounds);
        case _ =>
          session.SilentShutdown();
      }
    }
  }

  // ----- The transfer as a transition system -----

  /** What the peer wants to store, and the block size. */
  datatype Source = Source(bytes: seq<Byte>, blockSize: nat)

  ghost predicate Proper(f: Source) { f.blockSize > 0 }

  /** `toServer` is every packet the peer ever sent; delivering any of them, at any time,
      any number of times or never covers loss, repetition and reordering. `live` says that
      a session is registered and `sessions` counts the sessions so far; the link is that of
      the last one. `failed` records that a file write of this session fell short. */
  datatype Sys = Sys(r: Receiver, live: bool, sessions: nat, inbox: Inbox, toServer: set<Packet>, failed: bool)

  /** The peer has sent its request, and no session is registered yet. */
  const INIT := Sys(Receiver(FRESH_CORE.(state := CLOSED), []), false, 0, EMPTY, {Wrq}, false)

  datatype Action =
    | Deliver(p: Packet)     // the dispatcher gets a packet of the peer
    | Open(asleep: bool)     // it gets the request while no session is registered
    | Serve(accepted: nat)   // the session thread takes one packet and runs the handler
    | Doze                   // it finds no packet and waits for the event
    | Wake
    | Unregister             // the session thread in state CLOSED
    | Send(e: Event)         // one step of the send loop
    | PeerSend(p: Packet)

  /** A data packet that the peer may send: every block but the last is full, and
      the last one may be empty. Blocks beyond 65535 have no number of their own. */
  predicate Sendable(f: Source, p: Packet) {
    p.Data? && p.blkNo >= 1 && Within(f, p.blkNo) && p.payload == Block(f.bytes, f.blockSize, p.blkNo)
  }

  /** The file has an n-th block, be it empty. */
  predicate Within(f: Source, n: nat) { n > 0 ==> f.blockSize * (n - 1) <= |f.bytes| }

  /** The session thread is at the head of its loop. */
  predicate Free(s: Sys) { s.live && s.r.core.phase.Ready? && !s.inbox.asleep }

  predicate Enabled(f: Source, s: Sys, a: Action) {
    match a
    case Deliver(p) => p in s.toServer && (IsRequest(p) ==> s.live)
    case Open(_) => Wrq in s.toServer && !s.live
    case Serve(_) =>
      Free(s) && s.r.core.nextBlkNo >= 1 && s.r.core.state == ESTABLISHED && s.inbox.queue != []
    case Doze => Free(s) && s.r.core.state == ESTABLISHED && s.inbox.queue == []
    case Wake => s.inbox.asleep && s.inbox.event
    case Unregister => Free(s) && s.r.core.state == CLOSED
    case Send(e) => Accepts(s.r.core, e) && Possible(s.inbox, e)
    case PeerSend(p) => p.Wrq? || p.Error? || Sendable(f, p)
  }

  function Apply(f: Source, s: Sys, a: Action): Sys
    requires Enabled(f, s, a)
  {
    match a
    case Deliver(p) =>
      // a request is refused while its session is registered, any other packet while none is
      if IsRequest(p) || !s.live then s else s.(inbox := Put(s.inbox, p))
    case Open(asleep) =>
      // the file is truncated
      s.(r := Receiver(FRESH_CORE, []), live := true, sessions := s.sessions + 1,
         inbox := Inbox([Wrq], true, asleep), failed := false)
    case Serve(accepted) =>
      var p := s.inbox.queue[0];
      s.(r := Handle(f.blockSize, s.r, p, accepted), inbox := s.inbox.(queue := s.inbox.queue[1..]),
         failed := s.failed || (p.Data? && p.blkNo == s.r.core.nextBlkNo && accepted < |p.payload|))
    case Doze => s.(inbox := s.inbox.(asleep := true))
    case Wake => s.(inbox := s.inbox.(asleep := false, event := false))
    case Unregister => s.(live := false, inbox := EMPTY)
    case Send(e) => s.(r := s.r.(core := SendStep(s.r.core, e)), inbox := AfterEvent(s.inbox, e))
    case PeerSend(p) => s.(toServer := s.toServer + {p})
  }

  function Step(f: Source): (Sys, Action) -> Option<Sys> {
    (s: Sys, a: Action) => if Enabled(f, s, a) then Some(Apply(f, s, a)) else None
  }

  // ----- What every step keeps -----

  /** What the peer may have put on its way to the server. */
  ghost predicate Honest(f: Source, p: Packet) { p.Data? ==> Sendable(f, p) }

  /** The link carries acknowledgements only, and their numbers never decrease. */
  ghost predicate AcksInOrder(link: seq<Packet>) {
    && (forall p <- link :: p.Ack?)
    && (forall i, j :: 0 <= i < j < |link| ==> link[i].blkNo <= link[j].blkNo)
  }

  ghost predicate StoredSoFar(f: Source, s: Sys)
    requires s.r.core.nextBlkNo >= 1
  {
    var done := s.r.core.nextBlkNo - 1;
    if !s.failed then s.r.stored == Blocks(f.bytes, f.blockSize, done)
    else
      && s.r.core.state == CLOSED
      && Blocks(f.bytes, f.blockSize, done) <= s.r.stored <= Blocks(f.bytes, f.blockSize, done + 1)
  }

  /** A request comes first in its session. */
  ghost predicate RequestFirst(s: Sys) {
    && (forall i :: 1 <= i < |s.inbox.queue| ==> !IsRequest(s.inbox.queue[i]))
    && (s.inbox.queue != [] && IsRequest(s.inbox.queue[0]) ==> s.r.core == FRESH_CORE && s.inbox.queue[0] == Wrq)
  }

  ghost predicate Inv(f: Source, s: Sys) {
    var c := s.r.core;
    && Housed(c, s.live, s.inbox) && c.state != CLOSING
    && 1 <= c.nextBlkNo <= 0x1_0000 && Within(f, c.nextBlkNo - 1)
    && (!c.phase.Ready? ==> c.phase.after == c.nextBlkNo && c.phase.msg == Some(Ack(c.nextBlkNo - 1)))
    && StoredSoFar(f, s)
    && AcksInOrder(c.link)
    && (forall p <- c.link :: p.blkNo <= c.nextBlkNo - 1)
    && (forall p <- s.inbox.queue :: Honest(f, p))
    && Wrq in s.toServer && (forall p <- s.toServer :: Honest(f, p))
    && RequestFirst(s)
  }

  lemma StoringABlock(f: Source, stored: seq<Byte>, p: Packet, len: nat)
    requires Proper(f) && Sendable(f, p) && len <= |p.payload|
    requires stored == Blocks(f.bytes, f.blockSize, p.blkNo - 1)
    ensures var t := WriteAt(stored, f.blockSize * (p.blkNo - 1), p.payload[..len]);
            && stored <= t <= Blocks(f.bytes, f.blockSize, p.blkNo)
            && (len == |p.payload| ==> t == Blocks(f.bytes, f.blockSize, p.blkNo))
  {
    NextBlock(f.bytes, f.blockSize, p.blkNo - 1);
    assert |stored| == f.blockSize * (p.blkNo - 1);
    WriteAtEnd(stored, p.payload, len);
  }

  /** What is left in the queue is no request. */
  lemma RestOfQueue(s: Sys)
    requires RequestFirst(s) && s.inbox.queue != []
    ensures forall q <- s.inbox.queue[1..] :: q in s.inbox.queue && !IsRequest(q)
  {
  }

  lemma ServeKeepsInv(f: Source, s: Sys, accepted: nat)
    requires Proper(f) && Inv(f, s) && Enabled(f, s, Serve(accepted))
    ensures Inv(f, Apply(f, s, Serve(accepted)))
    ensures s.r.stored <= Apply(f, s, Serve(accepted)).r.stored
  {
    hide Blocks, WriteAt, Sendable;
    var p := s.inbox.queue[0];
    assert Honest(f, p);
    RestOfQueue(s);
    if p.Data? && p.blkNo == s.r.core.nextBlkNo {
      StoringABlock(f, s.r.stored, p, Min(accepted, |p.payload|));
      assert Within(f, p.blkNo) by { SendableIsWithin(f, p); }
    }
  }

  lemma SendableIsWithin(f: Source, p: Packet)
    requires Sendable(f, p)
    ensures Within(f, p.blkNo)
  {
  }

  lemma SendKeepsInv(f: Source, s: Sys, e: Event)
    requires Inv(f, s) && Enabled(f, s, Send(e))
    ensures Inv(f, Apply(f, s, Send(e)))
  {
    hide Sendable, Blocks, Within;
    if e.WriteOk? {
      assert Copies(s.r.core.phase.msg, 1) == [s.r.core.phase.msg.value];
    }
  }

  lemma StepKeepsInv(f: Source, s: Sys, a: Action)
    requires Proper(f) && Inv(f, s) && Enabled(f, s, a)
    ensures Inv(f, Apply(f, s, a))
  {
    hide Sendable;
    match a
    case Deliver(p) =>
      assert Honest(f, p);
    case Serve(accepted) => ServeKeepsInv(f, s, accepted);
    case Send(e) => SendKeepsInv(f, s, e);
    case _ =>
  }

  lemma StepsKeepInv(f: Source)
    requires Proper(f)
    ensures Kept(Step(f), Anything(), (s: Sys) => Inv(f, s))
    ensures Inv(f, INIT)
  {
    forall s: Sys, a | Inv(f, s) && Step(f)(s, a).Some? ensures Inv(f, Step(f)(s, a).value) {
      StepKeepsInv(f, s, a);
    }
  }

  lemma RunKeepsInv(f: Source, s: Sys, run: seq<Action>)
    requires Proper(f) && Inv(f, s) && Run(Step(f), s, run)
    ensures Inv(f, End(Step(f), s, run))
  {
    StepsKeepInv(f);
    RunKeeps(Step(f), Anything(), (s: Sys) => Inv(f, s), s, run);
  }

  // ----- Whole runs -----

  /** Safety of every run, over any number of sessions: the stored file is the first
      `NextBlkNo - 1` blocks of the peer's file (and a piece of the next one after a file
      write fell short), acknowledgement numbers of a session never decrease, and n is
      acknowledged in a session only once it has stored blocks 1 to n. */
  lemma {:induction false} WriteTransferIsSafe(f: Source, run: seq<Action>)
    requires Proper(f) && Run(Step(f), INIT, run)
    ensures var s := End(Step(f), INIT, run);
            && s.r.stored <= f.bytes
            && s.r.core.nextBlkNo >= 1 && StoredSoFar(f, s)
            && AcksInOrder(s.r.core.link)
            && (forall p <- s.r.core.link :: Blocks(f.bytes, f.blockSize, p.blkNo) <= s.r.stored)
  {
    StepsKeepInv(f);
    RunKeepsInv(f, INIT, run);
    InvIsSafe(f, End(Step(f), INIT, run));
  }

  lemma InvIsSafe(f: Source, s: Sys)
    requires Proper(f) && Inv(f, s)
    ensures s.r.stored <= f.bytes && s.r.core.nextBlkNo >= 1 && StoredSoFar(f, s) && AcksInOrder(s.r.core.link)
    ensures forall p <- s.r.core.link :: Blocks(f.bytes, f.blockSize, p.blkNo) <= s.r.stored
  {
    var done := s.r.core.nextBlkNo - 1;
    BlocksGrow(f.bytes, f.blockSize, done, done + 1);
    forall p <- s.r.core.link
      ensures Blocks(f.bytes, f.blockSize, p.blkNo) <= s.r.stored
    {
      BlocksGrow(f.bytes, f.blockSize, p.blkNo, done);
    }
  }

  // ----- When stored bytes are lost -----

  /** The runs in which no further session is opened. */
  function InSession(): Action -> bool { (a: Action) => !a.Open? }

  /** A step loses stored bytes exactly when it opens a session while something is stored. */
  lemma LosesExactlyByOpening(f: Source, s: Sys, a: Action)
    requires Proper(f) && Inv(f, s) && Enabled(f, s, a)
    ensures s.r.stored <= Apply(f, s, a).r.stored <==> !(a.Open? && s.r.stored != [])
  {
    hide Inv, Handle;
    if a.Serve? {
      ServeKeepsInv(f, s, a.accepted);
    }
  }

  /** Within a session nothing that is stored is ever lost. */
  lemma StoredGrowsInSession(f: Source, s: Sys, run: seq<Action>)
    requires Proper(f) && Inv(f, s) && Run(Step(f), s, run) && AllOf(InSession(), run)
    ensures s.r.stored <= End(Step(f), s, run).r.stored
  {
    var inv := (t: Sys) => Inv(f, t) && s.r.stored <= t.r.stored;
    forall t: Sys, a | InSession()(a) && inv(t) && Step(f)(t, a).Some? ensures inv(Step(f)(t, a).value) {
      StepKeepsInv(f, t, a);
      LosesExactlyByOpening(f, t, a);
    }
    hide Inv;
    RunKeeps(Step(f), InSession(), inv, s, run);
  }
}
