/** Runs of a transition system. */
module Runs {
  import opened Basics

  // A system is its step function: the state that an action leads to, or none when the
  // action is not possible.

  predicate Run<S, A>(step: (S, A) -> Option<S>, s: S, run: seq<A>)
    decreases |run|
  {
    run == [] || (step(s, run[0]).Some? && Run(step, step(s, run[0]).value, run[1..]))
  }

  function End<S, A>(step: (S, A) -> Option<S>, s: S, run: seq<A>): S
    requires Run(step, s, run)
    decreases |run|
  {
    if run == [] then s else End(step, step(s, run[0]).value, run[1..])
  }

  function Anything<A>(): A -> bool { _ => true }

  ghost predicate AllOf<A>(allowed: A -> bool, run: seq<A>) {
    forall i :: 0 <= i < |run| ==> allowed(run[i])
  }

  /** Every step by an allowed action keeps the invariant. */
  ghost predicate Kept<S(!new), A(!new)>(step: (S, A) -> Option<S>, allowed: A -> bool, inv: S -> bool) {
    forall s, a :: allowed(a) && inv(s) && step(s, a).Some? ==> inv(step(s, a).value)
  }

  lemma {:induction false} RunKeeps<S(!new), A(!new)>(
    step: (S, A) -> Option<S>, allowed: A -> bool, inv: S -> bool, s: S, run: seq<A>)
    requires Kept(step, allowed, inv) && inv(s) && Run(step, s, run) && AllOf(allowed, run)
    ensures inv(End(step, s, run))
    decreases |run|
  {
    if run != [] {
      assert AllOf(allowed, run[1..]);
      RunKeeps(step, allowed, inv, step(s, run[0]).value, run[1..]);
    }
  }

  lemma {:induction false} Joined<S, A>(step: (S, A) -> Option<S>, s: S, run: seq<A>, more: seq<A>)
    requires Run(step, s, run) && Run(step, End(step, s, run), more)
    ensures Run(step, s, run + more) && End(step, s, run + more) == End(step, End(step, s, run), more)
    decreases |run|
  {
    if run == [] {
      assert run + more == more;
    } else {
      Joined(step, step(s, run[0]).value, run[1..], more);
      assert (run + more)[1..] == run[1..] + more;
    }
  }

  lemma {:induction false} OneMore<S, A>(step: (S, A) -> Option<S>, s: S, run: seq<A>, a: A)
    requires Run(step, s, run) && step(End(step, s, run), a).Some?
    ensures Run(step, s, run + [a]) && End(step, s, run + [a]) == step(End(step, s, run), a).value
  {
    var t := End(step, s, run);
    assert [a][1..] == [] && Run(step, step(t, a).value, []);
    Joined(step, s, run, [a]);
  }

  // ----- What can still be reached -----

  /** Some run of allowed actions ends in a state like that. */
  ghost predicate CanReach<S, A(!new)>(step: (S, A) -> Option<S>, allowed: A -> bool, s: S, goal: S -> bool) {
    exists run :: Run(step, s, run) && AllOf(allowed, run) && goal(End(step, s, run))
  }

  lemma Already<S, A(!new)>(step: (S, A) -> Option<S>, allowed: A -> bool, s: S, goal: S -> bool)
    requires goal(s)
    ensures CanReach(step, allowed, s, goal)
  {
    assert Run(step, s, []) && End(step, s, []) == s;
  }

  lemma Before<S, A(!new)>(step: (S, A) -> Option<S>, allowed: A -> bool, s: S, a: A, goal: S -> bool)
    requires step(s, a).Some? && allowed(a) && CanReach(step, allowed, step(s, a).value, goal)
    ensures CanReach(step, allowed, s, goal)
  {
    var t := step(s, a).value;
    var run :| Run(step, t, run) && AllOf(allowed, run) && goal(End(step, t, run));
    assert ([a] + run)[1..] == run;
    assert Run(step, s, [a] + run) && End(step, s, [a] + run) == End(step, t, run);
    assert AllOf(allowed, [a] + run);
  }

  lemma Widened<S, A(!new)>(
    step: (S, A) -> Option<S>, allowed: A -> bool, more: A -> bool, s: S, goal: S -> bool)
    requires CanReach(step, allowed, s, goal) && forall a :: allowed(a) ==> more(a)
    ensures CanReach(step, more, s, goal)
  {
    var run :| Run(step, s, run) && AllOf(allowed, run) && goal(End(step, s, run));
    assert AllOf(more, run);
  }

  /** A state that was reached can be the start of a further run. */
  lemma After<S, A(!new)>(
    step: (S, A) -> Option<S>, allowed: A -> bool, s: S, run: seq<A>, goal: S -> bool)
    requires Run(step, s, run) && AllOf(allowed, run) && CanReach(step, allowed, End(step, s, run), goal)
    ensures CanReach(step, allowed, s, goal)
  {
    var t := End(step, s, run);
    var more :| Run(step, t, more) && AllOf(allowed, more) && goal(End(step, t, more));
    Joined(step, s, run, more);
    assert AllOf(allowed, run + more);
  }

  /** The goal can be reached from all states like that. */
  ghost predicate AllReach<S(!new), A(!new)>(
    step: (S, A) -> Option<S>, allowed: A -> bool, from: S -> bool, goal: S -> bool)
  {
    forall s :: from(s) ==> CanReach(step, allowed, s, goal)
  }

  lemma OneReaches<S(!new), A(!new)>(
    step: (S, A) -> Option<S>, allowed: A -> bool, from: S -> bool, s: S, goal: S -> bool)
    requires AllReach(step, allowed, from, goal) && from(s)
    ensures CanReach(step, allowed, s, goal)
  {
  }
}
