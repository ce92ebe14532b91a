/** The dispatcher of captured packets: which session a packet reaches. */
module EftpDispatch {
  import opened Basics
  import opened EftpSession

  const MAC_LEN := 6

  type Mac = m: seq<Byte> | |m| == MAC_LEN witness seq(MAC_LEN, _ => 0)

  /** The string comparison by which the session of an address is looked for. */
  predicate SameAddress(a: Mac, b: Mac) { SameFrom(a, b, 0) }

  predicate SameFrom(a: Mac, b: Mac, i: nat)
    requires i <= MAC_LEN
    decreases MAC_LEN - i
  {
    i == MAC_LEN || (a[i] == b[i] && (a[i] == 0 || SameFrom(a, b, i + 1)))
  }

  /** What that comparison sees of an address: it stops at a zero byte. */
  type Key = seq<Byte>

  function KeyFrom(a: Mac, i: nat): Key
    requires i <= MAC_LEN
    decreases MAC_LEN - i
  {
    if i == MAC_LEN || a[i] == 0 then [] else [a[i]] + KeyFrom(a, i + 1)
  }

  function KeyOf(a: Mac): Key { KeyFrom(a, 0) }

  const MAX_SESSION_NUM := 6

  /** For every live session, all packets that were ever queued for it. */
  type Table = map<Key, seq<Packet>>

  /** `Stopped`: an operation code the dispatcher does not know ends the program. */
  datatype Outcome = Running(live: Table) | Stopped

  datatype Event = Captured(mac: Mac, p: Packet) | Unregistered(mac: Mac)

  function Step(live: Table, e: Event): Outcome {
    match e
    case Unregistered(mac) => Running(live - {KeyOf(mac)})
    case Captured(mac, p) =>
      var key := KeyOf(mac);
      match p
      case Oack(_) => Stopped
      case Rrq => Running(Registered(live, key, p))
      case Wrq => Running(Registered(live, key, p))
      case _ => Running(if key in live then live[key := live[key] + [p]] else live)
  }

  /** A request opens a session unless one is alive for its sender or none is free. */
  function Registered(live: Table, key: Key, p: Packet): Table {
    if key in live || |live| >= MAX_SESSION_NUM then live else live[key := [p]]
  }

  function After(live: Table, es: seq<Event>): Outcome
    decreases |es|
  {
    if es == [] then Running(live)
    else match Step(live, es[0])
      case Stopped => Stopped
      case Running(next) => After(next, es[1..])
  }

  ghost predicate RequestFirstAndOnce(stream: seq<Packet>) {
    stream != [] && forall i :: 0 <= i < |stream| ==> (IsRequest(stream[i]) <==> i == 0)
  }

  ghost predicate Inv(live: Table) {
    |live| <= MAX_SESSION_NUM && forall key <- live :: RequestFirstAndOnce(live[key])
  }

  lemma StepKeepsInv(live: Table, e: Event)
    requires Inv(live) && Step(live, e).Running?
    ensures Inv(Step(live, e).live)
  {
    hide RequestFirstAndOnce, KeyOf;
    var key := KeyOf(e.mac);
    match e
    case Unregistered(_) =>
      FewerKeys(live, live - {key});
    case Captured(_, p) =>
      if IsRequest(p) {
        StartsWithRequest(p);
      } else if key in live {
        MoreInTurn(live[key], p);
        FewerKeys(live, live[key := live[key] + [p]]);
      }
  }

  lemma StartsWithRequest(p: Packet)
    requires IsRequest(p)
    ensures RequestFirstAndOnce([p])
  {
  }

  lemma MoreInTurn(stream: seq<Packet>, p: Packet)
    requires RequestFirstAndOnce(stream) && !IsRequest(p)
    ensures RequestFirstAndOnce(stream + [p])
  {
  }

  lemma FewerKeys(live: Table, next: Table)
    requires next.Keys <= live.Keys
    ensures |next| <= |live|
  {
    assert live.Keys == next.Keys + (live.Keys - next.Keys);
    assert |next| == |next.Keys| && |live| == |live.Keys|;
  }

  /** Whatever is captured, and whenever sessions end: a session sees its request
      before anything else and never sees another one. */
  lemma {:induction false} RequestReachesSessionFirstAndOnce(live: Table, es: seq<Event>)
    requires Inv(live) && After(live, es).Running?
    ensures Inv(After(live, es).live)
    decreases |es|
  {
    if es != [] {
      StepKeepsInv(live, es[0]);
      RequestReachesSessionFirstAndOnce(Step(live, es[0]).live, es[1..]);
    }
  }

  // ----- What the history of events says -----

  predicate Asks(e: Event, key: Key) { e.Captured? && IsRequest(e.p) && KeyOf(e.mac) == key }

  predicate Ends(e: Event, key: Key) { e.Unregistered? && KeyOf(e.mac) == key }

  /** Event i is the request that has opened the session which is now alive for the key:
      there was room for it, and no session of that key has ended since. */
  ghost predicate OpenedAt(es: seq<Event>, key: Key, i: nat)
    decreases |es|, 0
  {
    && i < |es| && Asks(es[i], key) && Room(es[..i], key)
    && forall j :: i < j < |es| ==> !Ends(es[j], key)
  }

  ghost predicate Alive(es: seq<Event>, key: Key)
    decreases |es|, 1
  {
    exists i: nat :: OpenedAt(es, key, i)
  }

  ghost function LiveKeys(es: seq<Event>): set<Key>
    decreases |es|, 2
  {
    set e | e in es && Alive(es, KeyOf(e.mac)) :: KeyOf(e.mac)
  }

  /** No session is alive for the key, and fewer than six are. */
  ghost predicate Room(es: seq<Event>, key: Key)
    decreases |es|, 3
  {
    !Alive(es, key) && |LiveKeys(es)| < MAX_SESSION_NUM
  }

  /** The data, acknowledgement and error packets that came from stations with that key. */
  function Sent(es: seq<Event>, key: Key): seq<Packet> {
    if es == [] then []
    else
      var front, e := es[..|es| - 1], es[|es| - 1];
      if e.Captured? && KeyOf(e.mac) == key && (e.p.Data? || e.p.Ack? || e.p.Error?)
      then Sent(front, key) + [e.p] else Sent(front, key)
  }

  lemma {:induction false} AfterOneMore(live: Table, es: seq<Event>, e: Event)
    ensures After(live, es + [e]) ==
            match After(live, es)
            case Stopped => Stopped
            case Running(next) => Step(next, e)
    decreases |es|
  {
    hide KeyOf;
    assert (es + [e])[0] == if es == [] then e else es[0];
    if es == [] {
      assert (es + [e])[1..] == [];
    } else {
      assert (es + [e])[1..] == es[1..] + [e];
      if Step(live, es[0]).Running? {
        AfterOneMore(Step(live, es[0]).live, es[1..], e);
      }
    }
  }

  /** Who is alive after one more event, and since when. */
  lemma OpenedAtStep(es: seq<Event>, e: Event, key: Key, i: nat)
    ensures i < |es| ==> (OpenedAt(es + [e], key, i) <==> OpenedAt(es, key, i) && !Ends(e, key))
    ensures i == |es| ==> (OpenedAt(es + [e], key, i) <==> Asks(e, key) && Room(es, key))
    ensures OpenedAt(es + [e], key, i) ==> i <= |es|
  {
    hide Room, KeyOf;
    if i < |es| {
      assert (es + [e])[..i] == es[..i];
      assert forall j :: 0 <= j < |es| ==> (es + [e])[j] == es[j];
      assert (es + [e])[|es|] == e;
    } else if i == |es| {
      assert (es + [e])[..i] == es;
    }
  }

  lemma SinceWhen(es: seq<Event>, key: Key) returns (i: nat)
    requires Alive(es, key)
    ensures OpenedAt(es, key, i)
  {
    i :| OpenedAt(es, key, i);
  }

  lemma AliveStep(es: seq<Event>, e: Event, key: Key)
    ensures Alive(es + [e], key) <==> (Alive(es, key) && !Ends(e, key)) || (Asks(e, key) && Room(es, key))
  {
    hide Room, OpenedAt, KeyOf;
    forall i: nat ensures OpenedAt(es + [e], key, i) <==>
                       (i < |es| && OpenedAt(es, key, i) && !Ends(e, key)) ||
                       (i == |es| && Asks(e, key) && Room(es, key))
    {
      OpenedAtStep(es, e, key, i);
    }
    if Alive(es, key) && !Ends(e, key) {
      var i := SinceWhen(es, key);
      OpenedInside(es, key, i);
      assert OpenedAt(es + [e], key, i);
    }
    if Asks(e, key) && Room(es, key) {
      assert OpenedAt(es + [e], key, |es|);
    }
  }

  lemma OpenedInside(es: seq<Event>, key: Key, i: nat)
    requires OpenedAt(es, key, i)
    ensures i < |es| && KeyOf(es[i].mac) == key
  {
    hide Room, KeyOf;
  }

  /** The table has exactly the live sessions, and each has been given its request and then
      whatever else came from its station, in order. */
  ghost predicate Described(es: seq<Event>, live: Table) {
    && (forall key :: key in live <==> Alive(es, key))
    && (forall key, i: nat :: OpenedAt(es, key, i) ==> StreamSince(es, live, key, i))
  }

  ghost predicate StreamSince(es: seq<Event>, live: Table, key: Key, i: nat) {
    i < |es| && es[i].Captured? && key in live && live[key] == [es[i].p] + Sent(es[i + 1..], key)
  }

  lemma CountsTheLive(es: seq<Event>, live: Table)
    requires Described(es, live)
    ensures live.Keys == LiveKeys(es) && |live| == |LiveKeys(es)|
  {
    hide OpenedAt, KeyOf;
    forall key | key in live.Keys ensures key in LiveKeys(es) {
      var i := SinceWhen(es, key);
      OpenedInside(es, key, i);
      assert es[i] in es;
    }
    assert live.Keys == LiveKeys(es);
    assert |live| == |live.Keys|;
  }

  lemma SentStep(es: seq<Event>, e: Event, key: Key, i: nat)
    requires i < |es|
    ensures Sent((es + [e])[i + 1..], key) ==
            Sent(es[i + 1..], key) +
            if e.Captured? && KeyOf(e.mac) == key && (e.p.Data? || e.p.Ack? || e.p.Error?) then [e.p] else []
  {
    hide KeyOf;
    var rest := (es + [e])[i + 1..];
    assert rest == es[i + 1..] + [e] && rest[..|rest| - 1] == es[i + 1..];
  }

  /** After one more event the table has the keys that are alive. */
  lemma KeysStep(es: seq<Event>, live: Table, e: Event, key: Key)
    requires Described(es, live) && Step(live, e).Running?
    ensures key in Step(live, e).live <==> Alive(es + [e], key)
  {
    hide KeyOf, OpenedAt, LiveKeys, Alive, Sent;
    CountsTheLive(es, live);
    AliveStep(es, e, key);
  }

  /** And each stream goes on as told. */
  lemma StreamOf(es: seq<Event>, live: Table, e: Event, key: Key, i: nat)
    requires Described(es, live) && Step(live, e).Running? && OpenedAt(es + [e], key, i)
    ensures StreamSince(es + [e], Step(live, e).live, key, i)
  {
    hide KeyOf, OpenedAt, LiveKeys, Alive, Sent, Room;
    OpenedAtStep(es, e, key, i);
    if i < |es| {
      OpenedInside(es, key, i);
      AsksToOpen(es, key, i);
      StreamStep(es, live, e, key, i);
    } else {
      CountsTheLive(es, live);
      NothingLive(es, key);
      NothingSent(es, e, key);
    }
  }

  lemma AsksToOpen(es: seq<Event>, key: Key, i: nat)
    requires OpenedAt(es, key, i)
    ensures i < |es| && Asks(es[i], key)
  {
    hide Room, KeyOf;
  }

  lemma NothingLive(es: seq<Event>, key: Key)
    ensures Room(es, key) <==> !Alive(es, key) && |LiveKeys(es)| < MAX_SESSION_NUM
  {
    hide OpenedAt, KeyOf;
  }

  lemma StepIsDescribed(es: seq<Event>, live: Table, e: Event)
    requires Described(es, live) && Step(live, e).Running?
    ensures Described(es + [e], Step(live, e).live)
  {
    hide KeyOf, OpenedAt, LiveKeys, Alive, Sent, Step, StreamSince;
    var next := Step(live, e).live;
    forall key ensures key in next <==> Alive(es + [e], key) {
      KeysStep(es, live, e, key);
    }
    forall key, i: nat | OpenedAt(es + [e], key, i)
      ensures StreamSince(es + [e], next, key, i)
    {
      StreamOf(es, live, e, key, i);
    }
  }

  lemma StreamStep(es: seq<Event>, live: Table, e: Event, key: Key, i: nat)
    requires Step(live, e).Running? && i < |es| && es[i].Captured? && !Ends(e, key)
    requires key in live && live[key] == [es[i].p] + Sent(es[i + 1..], key)
    ensures var next := Step(live, e).live;
            key in next && next[key] == [(es + [e])[i].p] + Sent((es + [e])[i + 1..], key)
  {
    hide KeyOf, Sent;
    SentStep(es, e, key, i);
  }

  lemma NothingSent(es: seq<Event>, e: Event, key: Key)
    ensures Sent((es + [e])[|es| + 1..], key) == []
  {
  }

  predicate Unknown(e: Event) { e.Captured? && e.p.Oack? }

  /** The dispatcher runs on exactly until a packet with an operation code that it does not
      know. */
  lemma {:induction false} RunsUnlessUnknown(live: Table, es: seq<Event>)
    ensures After(live, es).Running? <==> forall i: nat :: i < |es| ==> !Unknown(es[i])
    decreases |es|
  {
    if es != [] {
      StepRunsUnlessUnknown(live, es[0]);
      hide Step, Unknown;
      if Step(live, es[0]).Running? {
        RunsUnlessUnknown(Step(live, es[0]).live, es[1..]);
        assert forall i: nat :: 0 < i < |es| ==> es[i] == es[1..][i - 1];
      }
    }
  }

  lemma StepRunsUnlessUnknown(live: Table, e: Event)
    ensures Step(live, e).Running? <==> !Unknown(e)
  {
  }

  /** From the start, whatever is captured and whenever sessions end: a session is alive for
      exactly the stations whose request was accepted since their last session ended; what
      it was given is that request, followed by exactly the data, acknowledgement and error
      packets captured since from stations with that address. */
  lemma {:induction false} TableIsHistory(es: seq<Event>)
    requires After(map[], es).Running?
    ensures Described(es, After(map[], es).live)
    decreases |es|
  {
    if es == [] {
      NothingYet();
    } else {
      var front, e := es[..|es| - 1], es[|es| - 1];
      assert es == front + [e];
      AfterOneMore(map[], front, e);
      hide After, Described, Step;
      TableIsHistory(front);
      StepIsDescribed(front, After(map[], front).live, e);
    }
  }

  lemma NothingYet()
    ensures Described([], map[])
  {
    assert forall key, i: nat :: !OpenedAt([], key, i);
  }

  // ----- Which stations share a session -----

  lemma {:induction false} SameFromIsKeyFrom(a: Mac, b: Mac, i: nat)
    requires i <= MAC_LEN
    ensures SameFrom(a, b, i) <==> KeyFrom(a, i) == KeyFrom(b, i)
    decreases MAC_LEN - i
  {
    if i < MAC_LEN && a[i] == b[i] != 0 {
      SameFromIsKeyFrom(a, b, i + 1);
      assert KeyFrom(a, i)[1..] == KeyFrom(a, i + 1) && KeyFrom(b, i)[1..] == KeyFrom(b, i + 1);
    } else if i < MAC_LEN && a[i] != 0 && b[i] != 0 {
      assert KeyFrom(a, i)[0] == a[i] && KeyFrom(b, i)[0] == b[i];
    }
  }

  ghost predicate Alike(a: Mac, b: Mac) {
    forall live: Table, p :: Step(live, Captured(a, p)) == Step(live, Captured(b, p))
  }

  /** The addresses agree before place n, and there both end or have a zero byte. */
  ghost predicate AgreeUpTo(a: Mac, b: Mac, n: nat) {
    n <= MAC_LEN && (forall k :: 0 <= k < n ==> a[k] == b[k]) && (n == MAC_LEN || a[n] == b[n] == 0)
  }

  /** Two stations are taken for one exactly when their addresses agree up to a zero byte. */
  lemma AddressesShareASession(a: Mac, b: Mac)
    ensures SameAddress(a, b) <==> Alike(a, b)
    ensures SameAddress(a, b) <==> exists n :: AgreeUpTo(a, b, n)
  {
    SameFromIsKeyFrom(a, b, 0);
    SharedUpToZero(a, b, 0);
    if KeyOf(a) != KeyOf(b) {
      var live := Step(map[], Captured(a, Rrq)).live;
      assert KeyOf(a) in live && KeyOf(b) !in live;
    }
  }

  lemma {:induction false} SharedUpToZero(a: Mac, b: Mac, i: nat)
    requires i <= MAC_LEN && forall k :: 0 <= k < i ==> a[k] == b[k] != 0
    ensures SameFrom(a, b, i) <==> exists n :: AgreeUpTo(a, b, n)
    decreases MAC_LEN - i
  {
    if i == MAC_LEN || a[i] == b[i] == 0 {
      assert AgreeUpTo(a, b, i);
    } else if a[i] == b[i] {
      SharedUpToZero(a, b, i + 1);
    }
  }
}
