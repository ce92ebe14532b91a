/** The hand-over of packets to a session thread. */
module EftpQueue {
  import opened Basics
  import opened Runs

  // A queue behind a mutex, and an auto-reset event that both the queue reader and the
  // sender of replies wait for. Every interleaving of the dispatcher thread and the
  // session thread is a run of the transition system below.

  datatype Owner = Nobody | Dispatcher | Service

  /** The dispatcher inside `PktPut`. */
  datatype PutPc<T> = Outside | Locked(p: T) | Queued | Signalled

  /** The session thread. `Handling` is the time outside `PktGet`; the sender may
      wait for the event then. `Entering` is the label to which `PktGet` returns
      after a wait. */
  datatype GetPc<T> = Handling | Entering | Checking | FoundEmpty | AtWait | Taken(p: T)

  /** `put` and `taken` are histories. */
  datatype Sys<T> = Sys(
    queue: seq<T>, nodeNum: int, event: bool, owner: Owner,
    putPc: PutPc<T>, getPc: GetPc<T>, put: seq<T>, taken: seq<T>)

  datatype Action<T> =
    | PutLock(p: T) | PutEnqueue | PutSignal | PutUnlock
    | GetLock | GetCheck | GetEmptyUnlock | GetWake | GetUnlock
    | SenderWake | HandlerDone

  predicate Enabled<T>(s: Sys<T>, a: Action<T>) {
    match a
    case PutLock(_) => s.putPc.Outside? && s.owner == Nobody
    case PutEnqueue => s.putPc.Locked?
    case PutSignal => s.putPc.Queued?
    case PutUnlock => s.putPc.Signalled?
    case GetLock => s.getPc.Entering? && s.owner == Nobody
    case GetCheck => s.getPc.Checking?
    case GetEmptyUnlock => s.getPc.FoundEmpty?
    case GetWake => s.getPc.AtWait? && s.event
    case GetUnlock => s.getPc.Taken?
    case SenderWake => s.getPc.Handling? && s.event
    case HandlerDone => s.getPc.Handling?
  }

  function Apply<T>(s: Sys<T>, a: Action<T>): Sys<T>
    requires Enabled(s, a)
  {
    match a
    case PutLock(p) => s.(owner := Dispatcher, putPc := Locked(p))
    case PutEnqueue =>
      s.(queue := s.queue + [s.putPc.p], nodeNum := s.nodeNum + 1, put := s.put + [s.putPc.p], putPc := Queued)
    case PutSignal => s.(event := true, putPc := Signalled)
    case PutUnlock => s.(owner := Nobody, putPc := Outside)
    case GetLock => s.(owner := Service, getPc := Checking)
    case GetCheck =>
      if s.queue == [] then s.(getPc := FoundEmpty)
      else s.(queue := s.queue[1..], nodeNum := s.nodeNum - 1,
              taken := s.taken + [s.queue[0]], getPc := Taken(s.queue[0]))
    case GetEmptyUnlock => s.(owner := Nobody, getPc := AtWait)
    case GetWake => s.(event := false, getPc := Entering)
    case GetUnlock => s.(owner := Nobody, getPc := Handling)
    case SenderWake => s.(event := false)
    case HandlerDone => s.(getPc := Entering)
  }

  function Step<T>(): (Sys<T>, Action<T>) -> Option<Sys<T>> {
    (s: Sys<T>, a: Action<T>) => if Enabled(s, a) then Some(Apply(s, a)) else None
  }

  /** A session that has just been opened. */
  function Init<T>(): Sys<T> { Sys([], 0, false, Nobody, Outside, Entering, [], []) }

  ghost predicate Inv<T>(s: Sys<T>) {
    && (s.owner == Dispatcher <==> !s.putPc.Outside?)
    && (s.owner == Service <==> s.getPc.Checking? || s.getPc.FoundEmpty? || s.getPc.Taken?)
    && s.taken + s.queue == s.put
    && s.nodeNum == |s.queue|
    && (s.getPc.FoundEmpty? ==> s.queue == [])
    && (s.putPc.Signalled? && s.getPc.AtWait? ==> s.event)
    && (s.getPc.AtWait? && s.queue != [] ==> s.event || s.putPc.Queued?)
    && (s.getPc.Taken? ==> s.taken != [] && s.taken[|s.taken| - 1] == s.getPc.p)
  }

  lemma StepKeepsInv<T>(s: Sys<T>, a: Action<T>)
    requires Inv(s) && Enabled(s, a)
    ensures Inv(Apply(s, a))
  {
    if a.GetCheck? && s.queue != [] {
      assert s.queue == [s.queue[0]] + s.queue[1..];
    }
  }

  lemma RunKeepsInv<T(!new)>(s: Sys<T>, run: seq<Action<T>>)
    requires Inv(s) && Run(Step(), s, run)
    ensures Inv(End(Step(), s, run))
  {
    forall t: Sys<T>, a | Inv(t) && Step()(t, a).Some? ensures Inv(Step()(t, a).value) {
      StepKeepsInv(t, a);
    }
    hide Inv;
    RunKeeps(Step(), Anything(), (t: Sys<T>) => Inv(t), s, run);
  }

  /** First in, first out, and no wake-up is lost: when the session thread waits
      although the queue holds something, the event is set, or the dispatcher is
      inside its critical section and sets it next. */
  lemma {:induction false} FifoAndNoLostWakeUp<T(!new)>(run: seq<Action<T>>)
    requires Run(Step(), Init<T>(), run)
    ensures var s := End(Step(), Init<T>(), run);
            && s.taken + s.queue == s.put
            && s.nodeNum == |s.queue|
            && (s.getPc.AtWait? && s.queue != [] ==> s.event || Enabled(s, PutSignal))
            && (s.getPc.AtWait? && s.queue != [] && s.owner == Nobody ==> s.event)
  {
    RunKeepsInv(Init<T>(), run);
  }

  /** The dispatcher leaves its critical section. */
  lemma DispatcherLeaves<T(!new)>(s: Sys<T>) returns (run: seq<Action<T>>)
    requires Inv(s)
    ensures Run(Step(), s, run) && |run| <= 3 && (forall a <- run :: !a.PutLock?)
    ensures var t := End(Step(), s, run);
            && Inv(t) && t.putPc.Outside? && t.getPc == s.getPc && t.taken == s.taken
            && s.queue <= t.queue
  {
    run := [];
    if End(Step(), s, run).putPc.Locked? {
      OneMore(Step(), s, run, PutEnqueue);
      run := run + [PutEnqueue];
    }
    if End(Step(), s, run).putPc.Queued? {
      OneMore(Step(), s, run, PutSignal);
      run := run + [PutSignal];
    }
    if End(Step(), s, run).putPc.Signalled? {
      OneMore(Step(), s, run, PutUnlock);
      run := run + [PutUnlock];
    }
    RunKeepsInv(s, run);
  }

  /** A queued packet is never stranded: from every reachable state in which the
      session thread is inside `PktGet` and the queue holds something, at most six
      steps that need no further packet hand it the head of the queue. */
  lemma QueuedPacketIsServed<T(!new)>(s: Sys<T>) returns (run: seq<Action<T>>)
    requires Inv(s) && s.queue != [] && (s.getPc.Entering? || s.getPc.Checking? || s.getPc.AtWait?)
    ensures Run(Step(), s, run) && |run| <= 6 && forall a <- run :: !a.PutLock?
    ensures End(Step(), s, run).getPc == Taken(s.queue[0]) && End(Step(), s, run).taken == s.taken + [s.queue[0]]
  {
    run := DispatcherLeaves(s);
    if End(Step(), s, run).getPc.AtWait? {
      OneMore(Step(), s, run, GetWake);
      run := run + [GetWake];
    }
    if End(Step(), s, run).getPc.Entering? {
      OneMore(Step(), s, run, GetLock);
      run := run + [GetLock];
    }
    OneMore(Step(), s, run, GetCheck);
    run := run + [GetCheck];
  }

  lemma Put<T>(s: Sys<T>, run: seq<Action<T>>, p: T) returns (run': seq<Action<T>>)
    requires Run(Step(), s, run) && Enabled(End(Step(), s, run), PutLock(p))
    ensures Run(Step(), s, run')
    ensures var t := End(Step(), s, run);
            End(Step(), s, run') ==
              t.(queue := t.queue + [p], nodeNum := t.nodeNum + 1, put := t.put + [p], event := true)
  {
    OneMore(Step(), s, run, PutLock(p));
    run' := run + [PutLock(p)];
    OneMore(Step(), s, run', PutEnqueue);
    run' := run' + [PutEnqueue];
    OneMore(Step(), s, run', PutSignal);
    run' := run' + [PutSignal];
    OneMore(Step(), s, run', PutUnlock);
    run' := run' + [PutUnlock];
  }

  ghost predicate SignalSpent<T(!new)>(run: seq<Action<T>>) {
    && Run(Step(), Init<T>(), run)
    && var s := End(Step(), Init<T>(), run);
       s.getPc.Entering? && s.queue != [] && s.owner == Nobody && !s.event
  }

  /** One more step of the session thread. */
  lemma Then<T(!new)>(run: seq<Action<T>>, a: Action<T>) returns (run': seq<Action<T>>)
    requires Run(Step(), Init<T>(), run) && Enabled(End(Step(), Init<T>(), run), a)
    ensures Run(Step(), Init<T>(), run')
    ensures End(Step(), Init<T>(), run') == Apply(End(Step(), Init<T>(), run), a)
  {
    hide Apply;
    OneMore(Step(), Init<T>(), run, a);
    run' := run + [a];
  }

  /** The first packet is put and taken; its signal has not been needed. */
  lemma TakenAtOnce<T(!new)>(p: T) returns (run: seq<Action<T>>)
    ensures Run(Step(), Init<T>(), run)
    ensures End(Step(), Init<T>(), run) == Sys([], 0, true, Nobody, Outside, Handling, [p], [p])
  {
    hide Run, End, Step;
    NoSteps<T>();
    run := Put(Init<T>(), [], p);
    run := Then(run, GetLock);
    run := Then(run, GetCheck);
    run := Then(run, GetUnlock);
  }

  /** The claim cannot be widened to the moment before the test of the queue: the
      sender's own wait may have used the signal up by then. */
  lemma SignalMayBeSpentByTheSender<T(!new)>(p: T)
    ensures exists run :: SignalSpent<T>(run)
  {
    hide Run, End, Step;
    var run := TakenAtOnce(p);
    run := Put(Init<T>(), run, p);
    run := Then(run, SenderWake);
    run := Then(run, HandlerDone);
    assert SignalSpent(run);
  }

  lemma NoSteps<T(!new)>()
    ensures Run(Step(), Init<T>(), []) && End(Step(), Init<T>(), []) == Init<T>()
  {
  }
}
