/** What the variable commands mean: a list of variables, each declared at a nesting
    level, and the names of the scopes that are open. */
module RivlScope {
  /** A name this long, or longer, is refused by BeginScope. */
  const MAX_SCOPENAME_LEN: nat := 128

  /** A variable and the depth of the scope it was declared in; level 0 is global. */
  datatype Entry = Entry(name: string, level: nat)

  datatype State = State(vars: seq<Entry>, open: seq<string>)

  datatype Command =
    | Declare(name: string)
    | DelVar(name: string)
    | DelAll
    | BeginScope(name: string)
    | EndScope(name: string)

  function Filter<T>(xs: seq<T>, keep: T -> bool): seq<T> {
    if xs == [] then []
    else Filter(xs[..|xs| - 1], keep) + if keep(xs[|xs| - 1]) then [xs[|xs| - 1]] else []
  }

  predicate Has(vars: seq<Entry>, name: string) { exists e :: e in vars && e.name == name }

  function NotNamed(name: string): Entry -> bool { (e: Entry) => e.name != name }

  function NotAt(level: nat): Entry -> bool { (e: Entry) => e.level != level }

  function At(level: nat): Entry -> bool { (e: Entry) => e.level == level }

  function Below(level: nat): Entry -> bool { (e: Entry) => e.level < level }

  /** No command of the run deletes the variable, by its name or with all others. */
  function Spared(run: seq<Command>): Entry -> bool { (e: Entry) => DelVar(e.name) !in run && DelAll !in run }

  function Both<T>(p: T -> bool, q: T -> bool): T -> bool { x => p(x) && q(x) }

  /** Whether the command is carried out; one that is refused changes nothing. */
  predicate Accepted(s: State, c: Command) {
    match c
    case Declare(name) => !Has(s.vars, name)
    case DelVar(name) => Has(s.vars, name)
    case DelAll => true
    case BeginScope(name) => |name| < MAX_SCOPENAME_LEN
    case EndScope(name) => s.open != [] && s.open[|s.open| - 1] == name
  }

  function Apply(s: State, c: Command): State {
    if !Accepted(s, c) then s
    else
      match c
      case Declare(name) => s.(vars := s.vars + [Entry(name, |s.open|)])
      case DelVar(name) => s.(vars := Filter(s.vars, NotNamed(name)))
      case DelAll => s.(vars := [])
      case BeginScope(name) => s.(open := s.open + [name])
      case EndScope(_) => State(Filter(s.vars, NotAt(|s.open|)), s.open[..|s.open| - 1])
  }

  function After(s: State, run: seq<Command>): State {
    if run == [] then s else Apply(After(s, run[..|run| - 1]), run[|run| - 1])
  }

  // ----- Filters -----

  lemma {:induction false} FilterElements<T>(xs: seq<T>, keep: T -> bool)
    ensures forall x :: x in Filter(xs, keep) <==> x in xs && keep(x)
    ensures |Filter(xs, keep)| <= |xs|
  {
    if xs != [] {
      FilterElements(xs[..|xs| - 1], keep);
      assert xs == xs[..|xs| - 1] + [xs[|xs| - 1]];
    }
  }

  lemma {:induction false} FilterAgrees<T>(xs: seq<T>, p: T -> bool, q: T -> bool)
    requires forall x <- xs :: p(x) == q(x)
    ensures Filter(xs, p) == Filter(xs, q)
  {
    if xs != [] {
      FilterAgrees(xs[..|xs| - 1], p, q);
    }
  }

  lemma {:induction false} FilterAll<T>(xs: seq<T>, p: T -> bool)
    requires forall x <- xs :: p(x)
    ensures Filter(xs, p) == xs
  {
    if xs != [] {
      FilterAll(xs[..|xs| - 1], p);
      assert xs == xs[..|xs| - 1] + [xs[|xs| - 1]];
    }
  }

  lemma {:induction false} FilterTwice<T>(xs: seq<T>, p: T -> bool, q: T -> bool)
    ensures Filter(Filter(xs, p), q) == Filter(xs, Both(p, q))
  {
    if xs != [] {
      var front, last := xs[..|xs| - 1], xs[|xs| - 1];
      FilterTwice(front, p, q);
      FilterJoin(Filter(front, p), if p(last) then [last] else [], q);
    }
  }

  lemma {:induction false} FilterJoin<T>(xs: seq<T>, ys: seq<T>, p: T -> bool)
    ensures Filter(xs + ys, p) == Filter(xs, p) + Filter(ys, p)
  {
    if ys == [] {
      assert xs + ys == xs;
    } else {
      FilterJoin(xs, ys[..|ys| - 1], p);
      assert (xs + ys)[..|xs + ys| - 1] == xs + ys[..|ys| - 1];
    }
  }

  lemma {:induction false} FilterNone<T>(xs: seq<T>, p: T -> bool)
    requires forall x <- xs :: !p(x)
    ensures Filter(xs, p) == []
  {
    if xs != [] {
      FilterNone(xs[..|xs| - 1], p);
    }
  }

  // ----- What every run keeps -----

  /** Declared names are distinct, every variable belongs to the global scope or to one
      that is open, and outer variables stand before inner ones. */
  ghost predicate Scoped(s: State) {
    && DistinctNames(s.vars)
    && (forall e <- s.vars :: e.level <= |s.open|)
    && Nested(s.vars)
  }

  ghost predicate DistinctNames(vars: seq<Entry>) {
    forall i, j :: 0 <= i < j < |vars| ==> vars[i].name != vars[j].name
  }

  ghost predicate Nested(vars: seq<Entry>) {
    forall i, j :: 0 <= i < j < |vars| ==> vars[i].level <= vars[j].level
  }

  lemma {:induction false} FilterKeepsOrder(vars: seq<Entry>, keep: Entry -> bool)
    requires DistinctNames(vars) && Nested(vars)
    ensures DistinctNames(Filter(vars, keep)) && Nested(Filter(vars, keep))
  {
    if vars != [] {
      var front, last := vars[..|vars| - 1], vars[|vars| - 1];
      FilterKeepsOrder(front, keep);
      FilterElements(front, keep);
      forall i | 0 <= i < |Filter(front, keep)|
        ensures Filter(front, keep)[i].name != last.name && Filter(front, keep)[i].level <= last.level
      {
        assert Filter(front, keep)[i] in front;
      }
    }
  }

  lemma StepKeepsScoped(s: State, c: Command)
    requires Scoped(s)
    ensures Scoped(Apply(s, c))
  {
    if Accepted(s, c) {
      match c
      case Declare(name) =>
        forall i | 0 <= i < |s.vars| ensures s.vars[i].name != name {
          assert s.vars[i] in s.vars;
        }
      case DelVar(name) =>
        FilterKeepsOrder(s.vars, NotNamed(name));
        FilterElements(s.vars, NotNamed(name));
      case EndScope(_) =>
        FilterKeepsOrder(s.vars, NotAt(|s.open|));
        FilterElements(s.vars, NotAt(|s.open|));
      case _ =>
    }
  }

  /** Names are unique and scopes are live after every run of commands. */
  lemma {:induction false} RunKeepsScoped(run: seq<Command>)
    ensures Scoped(After(State([], []), run))
  {
    if run != [] {
      RunKeepsScoped(run[..|run| - 1]);
      StepKeepsScoped(After(State([], []), run[..|run| - 1]), run[|run| - 1]);
    }
  }

  // ----- A scope leaves its surroundings alone -----

  /** The run never closes one of the first `depth` scopes. */
  predicate StaysInside(s: State, run: seq<Command>, depth: nat) {
    |After(s, run).open| >= depth && (run == [] || StaysInside(s, run[..|run| - 1], depth))
  }

  lemma OuterStep(s: State, c: Command, depth: nat)
    requires Scoped(s) && |s.open| >= depth && |Apply(s, c).open| >= depth
    ensures Filter(Apply(s, c).vars, Below(depth)) == Filter(Filter(s.vars, Below(depth)), Spared([c]))
    ensures Apply(s, c).open[..depth] == s.open[..depth]
  {
    hide Filter, Scoped;
    var lower := Below(depth);
    var kept := Both(lower, Spared([c]));
    FilterTwice(s.vars, lower, Spared([c]));
    match c
    case Declare(name) =>
      FilterAgrees(s.vars, lower, kept);
      NewVariable(s.vars, Entry(name, |s.open|), lower);
    case DelVar(name) =>
      FilterTwice(s.vars, NotNamed(name), lower);
      FilterAgrees(s.vars, Both(NotNamed(name), lower), kept);
      if !Accepted(s, c) {
        FilterAgrees(s.vars, lower, kept);
      }
    case DelAll =>
      FilterNone([], lower);
      FilterNone(s.vars, kept);
    case BeginScope(_) =>
      FilterAgrees(s.vars, lower, kept);
    case EndScope(_) =>
      FilterTwice(s.vars, NotAt(|s.open|), lower);
      FilterAgrees(s.vars, lower, kept);
      if Accepted(s, c) {
        FilterAgrees(s.vars, lower, Both(NotAt(|s.open|), lower));
      }
  }

  lemma {:induction false} NewVariable(vars: seq<Entry>, e: Entry, p: Entry -> bool)
    requires !p(e)
    ensures Filter(vars + [e], p) == Filter(vars, p)
  {
    assert (vars + [e])[..|vars|] == vars;
  }

  /** Whatever happens inside, the outer variables change only by being deleted. */
  lemma {:induction false} OuterRun(s: State, run: seq<Command>, depth: nat)
    requires Scoped(s) && StaysInside(s, run, depth)
    ensures Scoped(After(s, run))
    ensures |s.open| >= depth && |After(s, run).open| >= depth && After(s, run).open[..depth] == s.open[..depth]
    ensures Filter(After(s, run).vars, Below(depth)) == Filter(Filter(s.vars, Below(depth)), Spared(run))
  {
    hide Filter, Scoped, Apply;
    var outer := Filter(s.vars, Below(depth));
    if run == [] {
      FilterAll(outer, Spared(run));
    } else {
      var front, c := run[..|run| - 1], run[|run| - 1];
      OuterRun(s, front, depth);
      StepKeepsScoped(After(s, front), c);
      OuterStep(After(s, front), c, depth);
      FilterTwice(outer, Spared(front), Spared([c]));
      assert run == front + [c];
      FilterAgrees(outer, Both(Spared(front), Spared([c])), Spared(run));
    }
  }

  lemma {:induction false} AfterJoin(s: State, a: seq<Command>, b: seq<Command>)
    ensures After(s, a + b) == After(After(s, a), b)
  {
    hide Apply;
    if b == [] {
      assert a + b == a;
    } else {
      AfterJoin(s, a, b[..|b| - 1]);
      assert (a + b)[..|a + b| - 1] == a + b[..|b| - 1];
    }
  }

  lemma {:induction false} AfterBracket(s: State, first: Command, run: seq<Command>, last: Command)
    ensures After(s, [first] + run + [last]) == Apply(After(Apply(s, first), run), last)
  {
    hide Apply;
    AfterJoin(s, [first] + run, [last]);
    AfterJoin(s, [first], run);
    assert [first][..0] == [] && [last][..0] == [];
  }

  /** A scope that is opened and closed again leaves its surroundings as they were: the
      variables from before, less those that a command inside deletes, in their old
      order, and none of its own. */
  lemma {:induction false} ScopeLeavesOuterVariables(s: State, name: string, run: seq<Command>)
    requires Scoped(s) && |name| < MAX_SCOPENAME_LEN
    requires var inner := Apply(s, BeginScope(name));
             StaysInside(inner, run, |s.open| + 1) && |After(inner, run).open| == |s.open| + 1
    ensures After(s, [BeginScope(name)] + run + [EndScope(name)]) == State(Filter(s.vars, Spared(run)), s.open)
    ensures (forall c <- run :: !c.DelVar? && !c.DelAll?) ==>
              After(s, [BeginScope(name)] + run + [EndScope(name)]) == s
  {
    hide Filter, After, StaysInside;
    var depth := |s.open| + 1;
    var inner := Apply(s, BeginScope(name));
    var t := After(inner, run);
    StepKeepsScoped(s, BeginScope(name));
    OuterRun(inner, run, depth);
    FilterAll(s.vars, Below(depth));
    FilterAgrees(t.vars, NotAt(depth), Below(depth));
    assert t.open == t.open[..depth] && t.open[depth - 1] == name;
    assert t.open[..|t.open| - 1] == s.open;
    AfterBracket(s, BeginScope(name), run, EndScope(name));
    if forall c <- run :: !c.DelVar? && !c.DelAll? {
      FilterAll(s.vars, Spared(run));
    }
  }

  // ----- The store read off the history -----

  /** The scopes that are open after a run, the innermost last. */
  function Scopes(run: seq<Command>): seq<string> {
    if run == [] then []
    else
      var open := Scopes(run[..|run| - 1]);
      match run[|run| - 1]
      case BeginScope(name) => if |name| < 128 then open + [name] else open
      case EndScope(name) => if open != [] && open[|open| - 1] == name then open[..|open| - 1] else open
      case _ => open
  }

  /** The command leaves a variable alone that was declared under that name and that many
      scopes; `depth` scopes are open behind it. */
  predicate Spares(c: Command, name: string, level: nat, depth: nat) {
    c != DelVar(name) && c != DelAll && level <= depth
  }

  /** Command k spares the variable that command i declares. */
  predicate SparedAt(run: seq<Command>, i: nat, k: nat)
    requires i < k < |run| && run[i].Declare?
  {
    Spares(run[k], run[i].name, |Scopes(run[..i])|, |Scopes(run[..k + 1])|)
  }

  predicate Untouched(run: seq<Command>, i: nat)
    requires i < |run| && run[i].Declare?
  {
    forall k: nat :: i < k < |run| ==> SparedAt(run, i, k)
  }

  /** Command i declared a variable that is still there: the name was free, and since then
      neither was it deleted nor its scope closed. */
  ghost predicate Alive(run: seq<Command>, i: nat)
    requires i < |run|
    decreases |run|, 0
  {
    run[i].Declare? && !Taken(run[..i], run[i].name) && Untouched(run, i)
  }

  ghost predicate Taken(run: seq<Command>, name: string)
    decreases |run|, 1
  {
    exists j: nat :: j < |run| && Alive(run, j) && run[j].name == name
  }

  /** The variables that the first n commands declared and that are still there. */
  ghost function Living(run: seq<Command>, n: nat): seq<Entry>
    requires n <= |run|
  {
    if n == 0 then []
    else if Alive(run, n - 1) then Living(run, n - 1) + [Entry(run[n - 1].name, |Scopes(run[..n - 1])|)]
    else Living(run, n - 1)
  }

  lemma {:induction false} LivingHas(run: seq<Command>, n: nat, name: string)
    requires n <= |run|
    ensures Has(Living(run, n), name) <==> exists j: nat :: j < n && Alive(run, j) && run[j].name == name
  {
    hide Alive, Scopes;
    if n > 0 {
      LivingHas(run, n - 1, name);
    }
  }

  lemma SparedAtStep(run: seq<Command>, c: Command, i: nat, k: nat)
    requires i < k <= |run| && run[i].Declare?
    ensures SparedAt(run + [c], i, k) ==
            if k < |run| then SparedAt(run, i, k)
            else Spares(c, run[i].name, |Scopes(run[..i])|, |Scopes(run + [c])|)
  {
    hide Scopes, Spares;
    assert (run + [c])[..i] == run[..i];
    assert (run + [c])[..k + 1] == if k < |run| then run[..k + 1] else run + [c];
  }

  lemma UntouchedStep(run: seq<Command>, c: Command, i: nat)
    requires i < |run| && run[i].Declare?
    ensures Untouched(run + [c], i) <==>
            Untouched(run, i) && Spares(c, run[i].name, |Scopes(run[..i])|, |Scopes(run + [c])|)
  {
    hide Scopes, Spares, SparedAt;
    SparedAtStep(run, c, i, |run|);
    forall k: nat | i < k < |run| ensures SparedAt(run + [c], i, k) == SparedAt(run, i, k) {
      SparedAtStep(run, c, i, k);
    }
  }

  /** What is alive after one more command. */
  lemma AliveStep(run: seq<Command>, c: Command, i: nat)
    requires i < |run|
    ensures Alive(run + [c], i) <==>
            Alive(run, i) && Spares(c, run[i].name, |Scopes(run[..i])|, |Scopes(run + [c])|)
  {
    hide Scopes, Spares, Untouched;
    if run[i].Declare? {
      UntouchedStep(run, c, i);
    }
    assert (run + [c])[..i] == run[..i];
  }

  function SparedBy(c: Command, depth: nat): Entry -> bool { (e: Entry) => Spares(c, e.name, e.level, depth) }

  lemma {:induction false} LivingStep(run: seq<Command>, c: Command, n: nat)
    requires n <= |run|
    ensures Living(run + [c], n) == Filter(Living(run, n), SparedBy(c, |Scopes(run + [c])|))
  {
    hide Alive, Scopes, Spares;
    if n > 0 {
      LivingStep(run, c, n - 1);
      AliveStep(run, c, n - 1);
      assert (run + [c])[..n - 1] == run[..n - 1];
    }
  }

  /** What a command does to the variables that are there is to remove those it does not spare. */
  lemma ApplySpares(s: State, c: Command)
    requires Scoped(s)
    ensures Apply(s, c).vars == Filter(s.vars, SparedBy(c, |Apply(s, c).open|))
                                + if c.Declare? && Accepted(s, c) then [Entry(c.name, |s.open|)] else []
  {
    hide Filter, DistinctNames, Nested;
    var kept := SparedBy(c, |Apply(s, c).open|);
    match c
    case DelVar(name) =>
      FilterAgrees(s.vars, NotNamed(name), kept);
      if !Accepted(s, c) {
        FilterAll(s.vars, kept);
      }
    case DelAll =>
      FilterNone(s.vars, kept);
    case EndScope(name) =>
      if Accepted(s, c) {
        FilterAgrees(s.vars, NotAt(|s.open|), kept);
      } else {
        FilterAll(s.vars, kept);
      }
    case _ =>
      FilterAll(s.vars, kept);
  }

  lemma ScopesStep(s: State, run: seq<Command>, c: Command)
    requires s.open == Scopes(run)
    ensures Apply(s, c).open == Scopes(run + [c])
  {
    hide Filter, Has;
    assert (run + [c])[..|run|] == run;
  }

  lemma LivingGrows(run: seq<Command>, c: Command)
    ensures Living(run + [c], |run| + 1) ==
            Filter(Living(run, |run|), SparedBy(c, |Scopes(run + [c])|))
            + if c.Declare? && !Has(Living(run, |run|), c.name) then [Entry(c.name, |Scopes(run)|)] else []
  {
    hide Filter, Alive, Scopes, Spares, SparedBy, Has;
    assert (run + [c])[..|run|] == run;
    LivingStep(run, c, |run|);
    LastIsAlive(run, c);
  }

  /** What is open and what is there after one more command. */
  lemma HistoryStep(run: seq<Command>, c: Command)
    requires Scoped(State(Living(run, |run|), Scopes(run)))
    ensures Apply(State(Living(run, |run|), Scopes(run)), c) ==
            State(Living(run + [c], |run| + 1), Scopes(run + [c]))
  {
    hide Apply, Living, Scopes, Filter, Scoped, Spares, SparedBy, Has;
    var s := State(Living(run, |run|), Scopes(run));
    ApplySpares(s, c);
    ScopesStep(s, run, c);
    LivingGrows(run, c);
  }

  /** After every run of commands the open scopes and the declared variables, with their
      levels and in their order, are those that the history tells. */
  lemma {:induction false} StoreIsHistory(run: seq<Command>)
    ensures After(State([], []), run) == State(Living(run, |run|), Scopes(run))
  {
    hide Apply, Living, Scoped;
    if run == [] {
      NothingLiving();
    } else {
      var front, c := run[..|run| - 1], run[|run| - 1];
      StoreIsHistory(front);
      RunKeepsScoped(front);
      HistoryStep(front, c);
      assert run == front + [c];
    }
  }

  lemma NothingLiving()
    ensures Living([], 0) == []
  {
  }

  lemma LastIsAlive(run: seq<Command>, c: Command)
    ensures Alive(run + [c], |run|) <==> c.Declare? && !Has(Living(run, |run|), c.name)
  {
    if c.Declare? {
      LivingHas(run, |run|, c.name);
    }
    assert (run + [c])[..|run|] == run;
  }
}
