/** The server side of one EFTP session, and its send loop. */
module EftpSession {
  import opened Basics

  // The send loop is stop-and-wait with resending on a timeout. Its small steps are what
  // the whole-run proofs interleave with a peer and a network.

  /** Block numbers travel in a 16-bit field. */
  const WIRE_MODULUS: nat := 0x1_0000
  /** MAX_TIMEOUT_COUNT: how often one packet is written before giving up. */
  const MAX_TIMEOUT_COUNT: nat := 2

  type Wire = n: nat | n < 0x1_0000

  function ToWire(n: int): Wire { n % WIRE_MODULUS }

  datatype Packet =
    | Rrq
    | Wrq
    | Data(blkNo: Wire, payload: seq<Byte>)
    | Ack(blkNo: Wire)
    | Error
    | Oack(blkNo: Wire)

  predicate IsRequest(p: Packet) { p.Rrq? || p.Wrq? }

  datatype State = ESTABLISHED | CLOSING | CLOSED

  /** Where the session thread is. While `SendData` has not returned, the value
      that `NextBlkNo` takes afterwards is already fixed: `after`. A message of
      `None` is the empty `LastSentMsg` of a session that has sent nothing. */
  datatype Phase =
    | Ready
    | Writing(msg: Option<Packet>, left: nat, after: int)
    | Waiting(msg: Option<Packet>, left: nat, after: int)

  /** The session as the service thread sees it. `link` is everything the link
      layer has accepted from this session, oldest first. */
  datatype Core = Core(
    state: State,
    nextBlkNo: int,
    lastAckNo: int,
    lastSent: Option<Packet>,
    link: seq<Packet>,
    phase: Phase)

  /** `NextBlkNo` once the running handler, if any, is over. */
  function Settled(c: Core): int {
    if c.phase.Ready? then c.nextBlkNo else c.phase.after
  }

  function StartSend(c: Core, msg: Option<Packet>, after: int): Core {
    c.(phase := Writing(msg, MAX_TIMEOUT_COUNT, after))
  }

  /** What the operating system answers to the next call of the sender. */
  datatype Event = WriteOk | WriteFailed | Signalled | Expired

  predicate Accepts(c: Core, e: Event) {
    match e
    case WriteOk => c.phase.Writing?
    case WriteFailed => c.phase.Writing?
    case Signalled => c.phase.Waiting?
    case Expired => c.phase.Waiting?
  }

  /** One step of the send loop. */
  function SendStep(c: Core, e: Event): Core
    requires Accepts(c, e)
  {
    match e
    case WriteOk =>
      c.(lastSent := c.phase.msg, link := c.link + Copies(c.phase.msg, 1),
         phase := Waiting(c.phase.msg, c.phase.left, c.phase.after))
    case WriteFailed =>
      c.(nextBlkNo := c.phase.after, phase := Ready)
    case Signalled =>
      c.(nextBlkNo := c.phase.after, phase := Ready)
    case Expired =>
      if c.phase.left <= 1 then c.(state := CLOSED, nextBlkNo := c.phase.after, phase := Ready)
      else c.(phase := Writing(c.phase.msg, c.phase.left - 1, c.phase.after))
  }

  /** How many copies of the message the loop writes, and when it gives up. */
  function Writes(rounds: seq<Round>): nat {
    if rounds == [] || rounds[0].NoWrite? then 0
    else if rounds[0].Woken? then 1
    else 1 + Writes(rounds[1..])
  }

  predicate NeverAnswered(rounds: seq<Round>) {
    forall i :: 0 <= i < |rounds| ==> rounds[i].TimedOut?
  }

  function Copies(msg: Option<Packet>, n: nat): seq<Packet> {
    if msg.None? then [] else seq(n, _ => msg.value)
  }

  /** What one round of the loop meets: the write fails, or it succeeds and the
      wait ends with a signal or without one. */
  datatype Round = NoWrite | Woken | TimedOut

  function Events(r: Round): seq<Event> {
    match r
    case NoWrite => [WriteFailed]
    case Woken => [WriteOk, Signalled]
    case TimedOut => [WriteOk, Expired]
  }

  predicate AcceptsAll(c: Core, es: seq<Event>)
    decreases |es|
  {
    es == [] || (Accepts(c, es[0]) && AcceptsAll(SendStep(c, es[0]), es[1..]))
  }

  function Steps(c: Core, es: seq<Event>): Core
    requires AcceptsAll(c, es)
    decreases |es|
  {
    if es == [] then c else Steps(SendStep(c, es[0]), es[1..])
  }

  /** The events that the loop consumes when it meets these rounds. */
  function Consumed(rounds: seq<Round>): seq<Event> {
    if rounds == [] then []
    else Events(rounds[0]) + if rounds[0].TimedOut? then Consumed(rounds[1..]) else []
  }

  /** The state in which the loop leaves the session. */
  function AfterSend(c: Core, rounds: seq<Round>): Core
    requires !c.phase.Ready?
  {
    c.(state := if NeverAnswered(rounds) then CLOSED else c.state,
       lastSent := if Writes(rounds) == 0 then c.lastSent else c.phase.msg,
       link := c.link + Copies(c.phase.msg, Writes(rounds)),
       nextBlkNo := c.phase.after,
       phase := Ready)
  }

  lemma {:induction false} FirstStep(c: Core, e: Event, es: seq<Event>)
    requires Accepts(c, e) && AcceptsAll(SendStep(c, e), es)
    ensures AcceptsAll(c, [e] + es)
    ensures Steps(c, [e] + es) == Steps(SendStep(c, e), es)
  {
    assert ([e] + es)[1..] == es;
  }

  /** One unanswered write is followed by the rest of the loop. */
  lemma AfterTimeout(c: Core, rounds: seq<Round>)
    requires c.phase.Writing? && c.phase.left == |rounds| > 1 && rounds[0].TimedOut?
    ensures AfterSend(SendStep(SendStep(c, WriteOk), Expired), rounds[1..]) == AfterSend(c, rounds)
  {
    var m, n := c.phase.msg, Writes(rounds[1..]);
    assert c.link + Copies(m, 1) + Copies(m, n) == c.link + Copies(m, 1 + n);
    assert NeverAnswered(rounds) <==> NeverAnswered(rounds[1..]) by {
      assert forall i :: 1 <= i < |rounds| ==> rounds[i] == rounds[1..][i - 1];
    }
  }

  /** The loop of `Session.SendData` is a run of the small steps: whatever the
      operating system answers, the steps are possible one after the other, end
      with the handler released, and put the same packets on the link. */
  lemma {:induction false} SendLoopIsARun(c: Core, rounds: seq<Round>)
    requires c.phase.Writing? && c.phase.left == |rounds| > 0
    ensures AcceptsAll(c, Consumed(rounds))
    ensures Steps(c, Consumed(rounds)) == AfterSend(c, rounds)
    decreases |rounds|
  {
    match rounds[0]
    case NoWrite =>
      assert !NeverAnswered(rounds);
      assert Consumed(rounds) == [WriteFailed] + [];
      FirstStep(c, WriteFailed, []);
    case Woken =>
      assert !NeverAnswered(rounds);
      LastRound(c, Signalled);
      assert Consumed(rounds) == [WriteOk, Signalled];
    case TimedOut =>
      if |rounds| == 1 {
        assert Consumed(rounds) == [WriteOk, Expired] && Writes(rounds) == 1;
        assert NeverAnswered(rounds);
        LastRound(c, Expired);
      } else {
        var c1 := SendStep(c, WriteOk);
        var tail := Consumed(rounds[1..]);
        SendLoopIsARun(SendStep(c1, Expired), rounds[1..]);
        AfterTimeout(c, rounds);
        FirstStep(c1, Expired, tail);
        FirstStep(c, WriteOk, [Expired] + tail);
        assert Consumed(rounds) == [WriteOk] + ([Expired] + tail);
      }
  }

  lemma {:induction false} LastRound(c: Core, e: Event)
    requires c.phase.Writing? && (e.Signalled? || e.Expired?)
    ensures AcceptsAll(c, [WriteOk, e])
    ensures Steps(c, [WriteOk, e]) == SendStep(SendStep(c, WriteOk), e)
  {
    var c1 := SendStep(c, WriteOk);
    assert [WriteOk, e] == [WriteOk] + ([e] + []);
    FirstStep(c1, e, []);
    FirstStep(c, WriteOk, [e] + []);
  }

  /** A packet that is not answered is written twice, and then the session is closed; an
      answer to either write leaves the session as it was. */
  lemma UnansweredTwice(c: Core, msg: Packet, after: int)
    requires c.phase.Ready?
    ensures var sending := StartSend(c, Some(msg), after);
            && (var silence := [WriteOk, Expired, WriteOk, Expired];
                AcceptsAll(sending, silence) && Steps(sending, silence) ==
                  c.(state := CLOSED, nextBlkNo := after, lastSent := Some(msg), link := c.link + [msg, msg]))
            && (var late := [WriteOk, Expired, WriteOk, Signalled];
                AcceptsAll(sending, late) && Steps(sending, late) ==
                  c.(nextBlkNo := after, lastSent := Some(msg), link := c.link + [msg, msg]))
            && (var once := [WriteOk, Signalled];
                AcceptsAll(sending, once) && Steps(sending, once) ==
                  c.(nextBlkNo := after, lastSent := Some(msg), link := c.link + [msg]))
  {
    var sending := StartSend(c, Some(msg), after);
    var again := SendStep(SendStep(sending, WriteOk), Expired);
    assert Copies(Some(msg), 1) == [msg];
    assert c.link + [msg] + [msg] == c.link + [msg, msg];
    LastRound(sending, Signalled);
    LastRound(again, Expired);
    LastRound(again, Signalled);
    FirstStep(SendStep(sending, WriteOk), Expired, [WriteOk, Expired]);
    FirstStep(SendStep(sending, WriteOk), Expired, [WriteOk, Signalled]);
    FirstStep(sending, WriteOk, [Expired] + [WriteOk, Expired]);
    FirstStep(sending, WriteOk, [Expired] + [WriteOk, Signalled]);
    assert [WriteOk, Expired, WriteOk, Expired] == [WriteOk] + ([Expired] + [WriteOk, Expired]);
    assert [WriteOk, Expired, WriteOk, Signalled] == [WriteOk] + ([Expired] + [WriteOk, Signalled]);
  }

  /** The session object. `link` is everything `libnet_write_link` has accepted,
      oldest first. */
  class Session {
    var state: State
    var lastSentMsg: Option<Packet>
    var link: seq<Packet>

    constructor ()
      ensures state == ESTABLISHED && lastSentMsg == None && link == []
    {
      state, lastSentMsg, link := ESTABLISHED, None, [];
    }

    method SilentShutdown()
      modifies `state
      ensures state == CLOSED
    {
      state := CLOSED;
    }

    method LoudShutdown()
      modifies `state
      ensures state == CLOSING
    {
      state := CLOSING;
    }

    /** The do-while loop of the sender; `rounds` is what the operating system answers. */
    method SendData(msg: Option<Packet>, rounds: seq<Round>)
      requires |rounds| == MAX_TIMEOUT_COUNT
      modifies this
      ensures link == old(link) + Copies(msg, Writes(rounds))
      ensures lastSentMsg == if Writes(rounds) == 0 then old(lastSentMsg) else msg
      ensures state == if NeverAnswered(rounds) then CLOSED else old(state)
    {
      var timeoutCount := MAX_TIMEOUT_COUNT;
      while true
        invariant 0 < timeoutCount <= MAX_TIMEOUT_COUNT
        invariant state == old(state)
        invariant link == old(link) + Copies(msg, MAX_TIMEOUT_COUNT - timeoutCount)
        invariant lastSentMsg == if timeoutCount == MAX_TIMEOUT_COUNT then old(lastSentMsg) else msg
        invariant forall i :: 0 <= i < MAX_TIMEOUT_COUNT - timeoutCount ==> rounds[i].TimedOut?
        invariant Writes(rounds) ==
                  MAX_TIMEOUT_COUNT - timeoutCount + Writes(rounds[MAX_TIMEOUT_COUNT - timeoutCount..])
        decreases timeoutCount
      {
        var round := rounds[MAX_TIMEOUT_COUNT - timeoutCount];
        if round.NoWrite? {
          return;
        }
        link := link + Copies(msg, 1);
        lastSentMsg := msg;
        if round.Woken? {
          return;
        }
        timeoutCount := timeoutCount - 1;
        if timeoutCount == 0 {
          break;
        }
      }
      SilentShutdown();
    }

    method ResendData(rounds: seq<Round>)
      requires |rounds| == MAX_TIMEOUT_COUNT
      modifies this
      ensures link == old(link) + Copies(old(lastSentMsg), Writes(rounds))
      ensures lastSentMsg == old(lastSentMsg)
      ensures state == if NeverAnswered(rounds) then CLOSED else old(state)
    {
      SendData(lastSentMsg, rounds);
    }
  }
}
