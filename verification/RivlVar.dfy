/** The variable store, as nodes on two chains. */
module RivlVar {
  import opened Basics
  import opened RivlScope

  // One list of nodes carries a second chain per scope, next to the stack of open scopes.
  // Every command is proved against RivlScope.Apply.

  const SCOPE_STACK_DEPTH: nat := 512

  /** `level` is where on the stack the scope was put. */
  class Scope {
    const name: string
    ghost const level: nat

    constructor (name: string, ghost level: nat)
      ensures this.name == name && this.level == level
    {
      this.name, this.level := name, level;
    }
  }

  class Variable {
    const name: string
    const scope: Scope?
    var next: Variable?
    var nextByScope: Variable?

    constructor (name: string, scope: Scope?)
      ensures this.name == name && this.scope == scope && next == null && nextByScope == null
    {
      this.name, this.scope := name, scope;
      next, nextByScope := null, null;
    }

    ghost function Declared(): Entry { Entry(name, if scope == null then 0 else scope.level) }
  }

  // ----- The next variable of the same scope -----

  /** The first place from k on that holds a variable of the scope. */
  ghost function NextOf(nodes: seq<Variable>, scope: Scope?, k: nat): (r: nat)
    requires k <= |nodes|
    ensures k <= r <= |nodes|
    ensures r < |nodes| ==> nodes[r].scope == scope
    ensures forall j :: k <= j < r ==> nodes[j].scope != scope
    decreases |nodes| - k
  {
    if k == |nodes| || nodes[k].scope == scope then k else NextOf(nodes, scope, k + 1)
  }

  ghost function NodeAt(nodes: seq<Variable>, k: nat): Variable? {
    if k < |nodes| then nodes[k] else null
  }

  /** The variable that comes next in list order among those of the same scope. */
  ghost function Following(nodes: seq<Variable>, i: nat): Variable?
    requires i < |nodes|
  {
    NodeAt(nodes, NextOf(nodes, nodes[i].scope, i + 1))
  }

  ghost function Dropped(nodes: seq<Variable>, i: nat): seq<Variable>
    requires i < |nodes|
  {
    nodes[..i] + nodes[i + 1..]
  }

  lemma {:induction false} NextIs(nodes: seq<Variable>, scope: Scope?, k: nat, r: nat)
    requires k <= r <= |nodes| && forall j :: k <= j < r ==> nodes[j].scope != scope
    requires r < |nodes| ==> nodes[r].scope == scope
    ensures NextOf(nodes, scope, k) == r
  {
    assert NextOf(nodes, scope, k) >= r;
  }

  lemma AppendingLinksTheLast(nodes: seq<Variable>, v: Variable, i: nat)
    requires i < |nodes|
    ensures Following(nodes + [v], i) ==
              if Following(nodes, i) == null && nodes[i].scope == v.scope then v else Following(nodes, i)
  {
    var all, scope := nodes + [v], nodes[i].scope;
    var r := NextOf(nodes, scope, i + 1);
    NextIs(all, scope, i + 1, if r == |nodes| && v.scope != scope then r + 1 else r);
  }

  lemma PlacesAfterDropping(nodes: seq<Variable>, i: nat)
    requires i < |nodes|
    ensures |Dropped(nodes, i)| == |nodes| - 1
    ensures forall m :: 0 <= m < |nodes| - 1 ==> Dropped(nodes, i)[m] == nodes[if m < i then m else m + 1]
  {
  }

  /** Once nodes[i] is gone, its chain goes on with its follower. */
  lemma DroppingRelinks(nodes: seq<Variable>, i: nat, j: nat)
    requires Distinct(nodes) && i < |nodes| && j < |nodes| && i != j
    ensures var k := if j < i then j else j - 1;
            Dropped(nodes, i)[k] == nodes[j] &&
            Following(Dropped(nodes, i), k) ==
              if Following(nodes, j) == nodes[i] then Following(nodes, i) else Following(nodes, j)
  {
    hide NextOf;
    var rest, scope := Dropped(nodes, i), nodes[j].scope;
    var k := if j < i then j else j - 1;
    var r := NextOf(nodes, scope, j + 1);
    assert r < |nodes| && nodes[r] == nodes[i] ==> r == i;
    hide Distinct;
    var t := if r == i then NextOf(nodes, scope, i + 1) else r;
    PlacesAfterDropping(nodes, i);
    NextIs(rest, scope, k + 1, if t < i then t else t - 1);
  }

  class Rivl {
    var variables: Variable?
    const scopes: array<Scope?>
    var scopeDepth: nat
    ghost var nodes: seq<Variable>
    ghost var open: seq<string>

    ghost predicate Chained()
      reads `variables, `nodes, nodes
    {
      && Distinct(nodes)
      && variables == NodeAt(nodes, 0)
      && (forall i {:trigger nodes[i].next} :: 0 <= i < |nodes| ==> nodes[i].next == NodeAt(nodes, i + 1))
    }

    ghost predicate ChainedByScope()
      reads `nodes, nodes
    {
      forall i {:trigger nodes[i].nextByScope} :: 0 <= i < |nodes| ==> nodes[i].nextByScope == Following(nodes, i)
    }

    /** Every entry of the stack up to `scopeDepth` but the lowest is a scope. */
    ghost predicate Stacked()
      reads this, scopes
    {
      && scopes.Length == SCOPE_STACK_DEPTH && |open| == scopeDepth < SCOPE_STACK_DEPTH
      && scopes[0] == null
      && forall k :: 1 <= k <= scopeDepth ==>
           scopes[k] != null && scopes[k].level == k && scopes[k].name == open[k - 1]
    }

    ghost predicate Live()
      requires Stacked()
      reads this, scopes
    {
      forall v <- nodes :: v.Declared().level <= scopeDepth && scopes[v.Declared().level] == v.scope
    }

    /** What the store holds, in the terms of RivlScope. */
    ghost function View(): State
      reads this
    {
      State(Entries(nodes), open)
    }

    ghost predicate Valid()
      reads this, scopes, nodes
    {
      Chained() && ChainedByScope() && Stacked() && Live() && Scoped(View())
    }

    constructor ()
      ensures Valid() && View() == State([], []) && fresh(scopes)
    {
      variables, scopeDepth, nodes, open := null, 0, [], [];
      scopes := new Scope?[SCOPE_STACK_DEPTH](_ => null);
    }

    method FindByName(name: string) returns (v: Variable?)
      requires Valid()
      ensures v == null <==> !Has(View().vars, name)
      ensures v != null ==> v in nodes && v.name == name
    {
      v := variables;
      ghost var k := 0;
      while v != null
        invariant 0 <= k <= |nodes| && v == NodeAt(nodes, k)
        invariant forall j :: 0 <= j < k ==> nodes[j].name != name
        decreases |nodes| - k
      {
        if v.name == name {
          assert View().vars[k].name == name;
          return;
        }
        v := v.next;
        k := k + 1;
      }
    }

    /** The first variable of a scope; there is none for the global scope. */
    method GetByScope(scope: Scope?) returns (v: Variable?)
      requires Valid()
      ensures v == if scope == null then null else NodeAt(nodes, NextOf(nodes, scope, 0))
    {
      if scope == null {
        return null;
      }
      v := variables;
      ghost var k := 0;
      while v != null
        invariant 0 <= k <= |nodes| && v == NodeAt(nodes, k)
        invariant NextOf(nodes, scope, k) == NextOf(nodes, scope, 0)
        decreases |nodes| - k
      {
        if v.scope == scope {
          return;
        }
        v := v.next;
        k := k + 1;
      }
    }

    /** Hangs v behind the last variable of its scope. */
    method LinkByScope(v: Variable)
      requires Chained() && ChainedByScope()
      modifies nodes`nextByScope
      ensures forall i {:trigger nodes[i].nextByScope} :: 0 <= i < |nodes| ==>
                nodes[i].nextByScope ==
                  if Following(nodes, i) == null && nodes[i].scope == v.scope then v else Following(nodes, i)
    {
      var p := variables;
      ghost var k := 0;
      while p != null
        invariant 0 <= k <= |nodes| && p == NodeAt(nodes, k)
        invariant forall j :: 0 <= j < k ==> nodes[j].scope != v.scope || Following(nodes, j) != null
        decreases |nodes| - k
      {
        if p.scope == v.scope && p.nextByScope == null {
          p.nextByScope := v;
          return;
        }
        p := p.next;
        k := k + 1;
      }
    }

    /** Adds a variable at the end of both chains. */
    method Add(v: Variable)
      requires Chained() && ChainedByScope() && v !in nodes && v.nextByScope == null
      modifies this`variables, this`nodes, nodes, v
      ensures Chained() && ChainedByScope() && nodes == old(nodes) + [v]
    {
      hide NextOf, Following;
      if variables == null {
        variables := v;
        v.next := null;
      } else {
        LinkByScope(v);
        var p := variables;
        ghost var k := 0;
        while p.next != null
          invariant 0 <= k < |nodes| && p == nodes[k]
          decreases |nodes| - k
        {
          p := p.next;
          k := k + 1;
        }
        p.next := v;
        v.next := null;
        v.nextByScope := null;
      }
      nodes := nodes + [v];
      NodesAppended(old(nodes), v);
    }

    /** Declares a variable in the innermost scope, unless the name is taken. */
    method Declare(name: string) returns (ok: bool)
      requires Valid()
      modifies this`variables, this`nodes, nodes
      ensures Valid() && forall v <- nodes :: v in old(nodes) || fresh(v)
      ensures ok == Accepted(old(View()), RivlScope.Declare(name))
      ensures View() == Apply(old(View()), RivlScope.Declare(name))
    {
      hide NextOf, Following, Chained, ChainedByScope;
      var known := FindByName(name);
      if known != null {
        return false;
      }
      var v := new Variable(name, scopes[scopeDepth]);
      Add(v);
      assert Entries(nodes) == Entries(old(nodes)) + [Entry(name, scopeDepth)];
      StepKeepsScoped(old(View()), RivlScope.Declare(name));
      ok := true;
    }

    /** Takes the variable of that name off the list; the first one does not bear it. */
    method Unlink(name: string) returns (destroy: Variable?)
      requires Chained() && nodes != [] && nodes[0].name != name
      modifies nodes`next
      ensures destroy == null <==> !Named(nodes, name)
      ensures destroy == null ==> Chained()
      ensures destroy != null ==> IndexOf(nodes, name) > 0 && destroy == nodes[IndexOf(nodes, name)]
      ensures destroy != null ==>
                forall j {:trigger nodes[j].next} :: 0 <= j < |nodes| ==>
                  nodes[j].next == NodeAt(nodes, if j + 1 == IndexOf(nodes, name) then j + 2 else j + 1)
    {
      hide IndexOf;
      var p := variables;
      ghost var k := 0;
      while p.next != null && p.next.name != name
        invariant 0 <= k < |nodes| && p == nodes[k] && forall j :: 0 <= j <= k ==> nodes[j].name != name
        decreases |nodes| - k
      {
        p := p.next;
        k := k + 1;
      }
      if p.next == null {
        return null;
      }
      assert nodes[k + 1].name == name;
      destroy := p.next;
      p.next := p.next.next;
    }

    /** Takes nodes[i], which is off the list already, out of the chain of its scope. */
    method UnlinkByScope(destroy: Variable, ghost i: nat)
      requires Distinct(nodes) && 0 < i < |nodes| && destroy == nodes[i] && variables == nodes[0]
      requires ChainedByScope()
      requires forall j {:trigger nodes[j].next} :: 0 <= j < |nodes| ==>
                 nodes[j].next == NodeAt(nodes, if j + 1 == i then j + 2 else j + 1)
      modifies nodes`nextByScope
      ensures forall j {:trigger nodes[j].nextByScope} :: 0 <= j < |nodes| && j != i ==>
                nodes[j].nextByScope ==
                  if Following(nodes, j) == destroy then Following(nodes, i) else Following(nodes, j)
    {
      hide NextOf, Following;
      var p := variables;
      ghost var k := 0;
      while p != null && p != destroy
        invariant 0 <= k <= |nodes| && k != i && p == NodeAt(nodes, k)
        invariant forall j :: 0 <= j < k && j != i ==> Following(nodes, j) != destroy
        decreases |nodes| - k
      {
        if p.nextByScope == destroy {
          forall j | 0 <= j < |nodes| && j != k ensures Following(nodes, j) != destroy {
            FollowedOnce(nodes, k, j);
          }
          p.nextByScope := destroy.nextByScope;
          return;
        }
        p := p.next;
        k := if k + 1 == i then k + 2 else k + 1;
      }
    }

    /** Takes the variable of that name off both chains; the first one does not bear it. */
    method UnlinkFromBoth(name: string) returns (missing: bool)
      requires Chained() && ChainedByScope() && nodes != [] && nodes[0].name != name
      modifies nodes
      ensures missing <==> !Named(nodes, name)
      ensures missing ==> Chained() && ChainedByScope()
      ensures !missing ==> IndexOf(nodes, name) > 0 && Skipped(nodes, IndexOf(nodes, name))
    {
      hide NextOf, Following, IndexOf, Distinct;
      var destroy := Unlink(name);
      if destroy == null {
        return true;
      }
      UnlinkByScope(destroy, IndexOf(nodes, name));
      missing := false;
    }

    lemma FirstIsSkipped(name: string)
      requires Chained() && ChainedByScope() && nodes != [] && nodes[0].name == name
      ensures IndexOf(nodes, name) == 0 && Skipped(nodes, 0)
    {
      hide NextOf, Following, Distinct;
      NotBefore(nodes, 0);
    }

    /** Removes the variable of that name from both chains. `wild` says that no variable
        has that name and the code destroys one that it has not found. */
    method RemoveByName(name: string) returns (wild: bool)
      requires Chained() && ChainedByScope()
      modifies this`variables, this`nodes, nodes
      ensures Chained() && ChainedByScope()
      ensures wild <==> old(nodes) != [] && !Named(old(nodes), name)
      ensures nodes == if Named(old(nodes), name) then Dropped(old(nodes), IndexOf(old(nodes), name)) else old(nodes)
    {
      hide NextOf, Following, IndexOf, Distinct, Skipped;
      if variables == null {
        return false;
      }
      ghost var was := nodes;
      if variables.name == name {
        FirstIsSkipped(name);
        variables := variables.next;
      } else {
        wild := UnlinkFromBoth(name);
        if wild {
          return;
        }
      }
      RightForTheRest(was, IndexOf(was, name));
      nodes := Dropped(was, IndexOf(was, name));
      wild := false;
    }

    method DelVar(name: string) returns (ok: bool)
      requires Valid()
      modifies this`variables, this`nodes, nodes
      ensures Valid() && forall v <- nodes :: v in old(nodes)
      ensures ok == Accepted(old(View()), RivlScope.DelVar(name))
      ensures View() == Apply(old(View()), RivlScope.DelVar(name))
    {
      hide NextOf, Following, Chained, ChainedByScope, IndexOf, Filter, Scoped;
      var known := FindByName(name);
      if known == null {
        return false;
      }
      NamedGone(nodes, open, name);
      var _ := RemoveByName(name);
      StepKeepsScoped(old(View()), RivlScope.DelVar(name));
      ok := true;
    }

    method DestroyAll()
      requires Valid()
      modifies this`variables, this`nodes
      ensures Valid() && nodes == [] && View() == Apply(old(View()), DelAll)
    {
      var v := variables;
      ghost var k := 0;
      while v != null
        invariant 0 <= k <= |nodes| && v == variables == NodeAt(nodes, k) && nodes == old(nodes)
        decreases |nodes| - k
      {
        variables := v.next;
        v := variables;
        k := k + 1;
      }
      nodes := [];
    }

    /** `wild` says that the stack is full and the code writes behind its end. */
    method BeginScope(name: string) returns (ok: bool, wild: bool)
      requires Valid()
      modifies this`scopeDepth, this`open, scopes
      ensures Valid() && nodes == old(nodes)
      ensures wild <==> ok && |old(open)| + 1 == SCOPE_STACK_DEPTH
      ensures ok == Accepted(old(View()), RivlScope.BeginScope(name))
      ensures View() == if wild then old(View()) else Apply(old(View()), RivlScope.BeginScope(name))
    {
      if |name| >= MAX_SCOPENAME_LEN {
        return false, false;
      }
      if scopeDepth + 1 == SCOPE_STACK_DEPTH {
        return true, true;
      }
      scopeDepth := scopeDepth + 1;
      scopes[scopeDepth] := new Scope(name, scopeDepth);
      open := open + [name];
      return true, false;
    }

    /** The names on the chain that starts at `header`, as they are sent to the agent. */
    method ChainNames(header: Variable?, ghost level: nat) returns (names: seq<string>)
      requires Valid() && 0 < level <= scopeDepth && header == NodeAt(nodes, NextOf(nodes, scopes[level], 0))
      ensures names == Names(Filter(View().vars, At(level)))
    {
      hide Filter, NextOf;
      var v := header;
      names := [];
      ghost var k := NextOf(nodes, scopes[level], 0);
      GapHoldsNone(nodes, 0, k, level);
      FilterNone(Entries(nodes[..0]), At(level));
      while v != null
        invariant 0 <= k <= |nodes| && v == NodeAt(nodes, k) && (k < |nodes| ==> v.scope == scopes[level])
        invariant names == Names(Filter(Entries(nodes[..k]), At(level)))
        decreases |nodes| - k
      {
        names := names + [v.name];
        v := v.nextByScope;
        ghost var next := NextOf(nodes, scopes[level], k + 1);
        OneOfLevel(nodes, k, level);
        GapHoldsNone(nodes, k + 1, next, level);
        k := next;
      }
      assert nodes[..k] == nodes;
    }

    /** Removes one variable after another along the chain that starts at `header`. */
    method DeleteChain(header: Variable?, ghost level: nat)
      requires Valid() && 0 < level <= scopeDepth && header == NodeAt(nodes, NextOf(nodes, scopes[level], 0))
      modifies this`variables, this`nodes, nodes
      ensures Valid() && forall v <- nodes :: v in old(nodes)
      ensures View() == old(View()).(vars := Filter(old(View()).vars, NotAt(level)))
    {
      hide Filter, NextOf, IndexOf, Following;
      var v := header;
      ghost var scope := scopes[level];
      while v != null
        invariant Valid() && open == old(open) && forall x <- nodes :: x in old(nodes)
        invariant v == NodeAt(nodes, NextOf(nodes, scope, 0))
        invariant Filter(View().vars, NotAt(level)) == Filter(old(View()).vars, NotAt(level))
        decreases |nodes|
      {
        assert forall i :: 0 <= i < |nodes| ==> nodes[i] in old(nodes);
        v := DeleteFirst(v, level);
      }
      FilterAll(View().vars, NotAt(level));
    }

    /** Removes the first variable of a scope and moves on to its follower. */
    method DeleteFirst(v: Variable, ghost level: nat) returns (next: Variable?)
      requires Valid() && 0 < level <= scopeDepth && v == NodeAt(nodes, NextOf(nodes, scopes[level], 0))
      modifies this`variables, this`nodes, nodes
      ensures Valid() && open == old(open) && |nodes| < |old(nodes)| && forall v <- nodes :: v in old(nodes)
      ensures next == NodeAt(nodes, NextOf(nodes, scopes[level], 0))
      ensures Filter(View().vars, NotAt(level)) == Filter(old(View()).vars, NotAt(level))
    {
      hide Filter, NextOf, Chained, IndexOf, Following, Scoped;
      next := v.nextByScope;
      assert next == Following(nodes, NextOf(nodes, scopes[level], 0));
      hide ChainedByScope;
      FirstGone(nodes, open, scopes[level], level);
      DroppedFirst(nodes, scopes[level]);
      var _ := RemoveByName(v.name);
    }

    method EndScope(name: string) returns (ok: bool, told: seq<string>)
      requires Valid()
      modifies this`variables, this`nodes, this`scopeDepth, this`open, nodes, scopes
      ensures Valid() && forall v <- nodes :: v in old(nodes)
      ensures ok == Accepted(old(View()), RivlScope.EndScope(name))
      ensures View() == Apply(old(View()), RivlScope.EndScope(name))
      ensures told == if ok then Names(Filter(old(View()).vars, At(old(scopeDepth)))) else []
    {
      hide Filter, NextOf, Following, Chained, ChainedByScope, Scoped;
      told := [];
      if scopeDepth == 0 {
        return false, told;
      }
      if scopes[scopeDepth].name != name {
        return false, told;
      }
      var header := GetByScope(scopes[scopeDepth]);
      told := ChainNames(header, scopeDepth);
      DeleteChain(header, scopeDepth);
      StepKeepsScoped(old(View()), RivlScope.EndScope(name));
      NoneLeft(nodes, old(View()).vars, scopeDepth);
      scopes[scopeDepth] := null;
      scopeDepth := scopeDepth - 1;
      open := open[..|open| - 1];
      ok := true;
    }
  }

  lemma {:induction false} NoneLeft(nodes: seq<Variable>, vars: seq<Entry>, level: nat)
    requires Entries(nodes) == Filter(vars, NotAt(level))
    ensures forall v <- nodes :: v.Declared().level != level
  {
    FilterElements(vars, NotAt(level));
    forall v <- nodes ensures v.Declared().level != level {
      var i :| 0 <= i < |nodes| && nodes[i] == v;
      assert Entries(nodes)[i] == v.Declared() && Entries(nodes)[i] in Entries(nodes);
      assert NotAt(level)(v.Declared());
    }
  }

  /** What the store holds without the variable of that name. */
  lemma NamedGone(nodes: seq<Variable>, open: seq<string>, name: string)
    requires Scoped(State(Entries(nodes), open)) && Named(nodes, name)
    ensures Entries(Dropped(nodes, IndexOf(nodes, name))) == Filter(Entries(nodes), NotNamed(name))
  {
    hide Filter, IndexOf;
    var vars, i := Entries(nodes), IndexOf(nodes, name);
    DropIsFilter(vars, i);
    assert Entries(Dropped(nodes, i)) == vars[..i] + vars[i + 1..];
  }

  lemma {:induction false} FirstIsNamed(nodes: seq<Variable>, i: nat)
    requires i < |nodes| && DistinctNames(Entries(nodes))
    ensures IndexOf(nodes, nodes[i].name) == i
  {
    var k := IndexOf(nodes, nodes[i].name);
    assert Entries(nodes)[k].name == Entries(nodes)[i].name;
  }

  /** What the store holds without the first variable of a scope. */
  lemma {:induction false} FirstGone(nodes: seq<Variable>, open: seq<string>, scope: Scope?, level: nat)
    requires Scoped(State(Entries(nodes), open)) && NextOf(nodes, scope, 0) < |nodes|
    requires nodes[NextOf(nodes, scope, 0)].Declared().level == level
    ensures var i := NextOf(nodes, scope, 0);
            var rest := Entries(Dropped(nodes, i));
            && Named(nodes, nodes[i].name) && IndexOf(nodes, nodes[i].name) == i
            && Scoped(State(rest, open)) && Filter(rest, NotAt(level)) == Filter(Entries(nodes), NotAt(level))
  {
    hide Filter, NextOf, IndexOf;
    var vars, i := Entries(nodes), NextOf(nodes, scope, 0);
    var name := nodes[i].name;
    FirstIsNamed(nodes, i);
    DropIsFilter(vars, i);
    assert Entries(Dropped(nodes, i)) == vars[..i] + vars[i + 1..];
    FilterTwice(vars, NotNamed(name), NotAt(level));
    FilterAgrees(vars, NotAt(level), Both(NotNamed(name), NotAt(level)));
    FilterKeepsOrder(vars, NotNamed(name));
  }

  lemma {:induction false} DroppedFirst(nodes: seq<Variable>, scope: Scope?)
    requires NextOf(nodes, scope, 0) < |nodes|
    ensures var i := NextOf(nodes, scope, 0);
            NodeAt(Dropped(nodes, i), NextOf(Dropped(nodes, i), scope, 0)) == Following(nodes, i)
  {
    var i := NextOf(nodes, scope, 0);
    NextIs(Dropped(nodes, i), scope, 0, NextOf(nodes, scope, i + 1) - 1);
  }

  ghost function Names(vars: seq<Entry>): seq<string> {
    seq(|vars|, i requires 0 <= i < |vars| => vars[i].name)
  }

  lemma GapHoldsNone(nodes: seq<Variable>, k: nat, r: nat, level: nat)
    requires k <= r <= |nodes| && forall j :: k <= j < r ==> nodes[j].Declared().level != level
    ensures Filter(Entries(nodes[..r]), At(level)) == Filter(Entries(nodes[..k]), At(level))
  {
    FilterJoin(Entries(nodes[..k]), Entries(nodes[k..r]), At(level));
    FilterNone(Entries(nodes[k..r]), At(level));
    assert Entries(nodes[..r]) == Entries(nodes[..k]) + Entries(nodes[k..r]);
  }

  lemma OneOfLevel(nodes: seq<Variable>, k: nat, level: nat)
    requires k < |nodes| && nodes[k].Declared().level == level
    ensures Filter(Entries(nodes[..k + 1]), At(level)) == Filter(Entries(nodes[..k]), At(level)) + [nodes[k].Declared()]
  {
    assert Entries(nodes[..k + 1])[..k] == Entries(nodes[..k]);
  }

  /** Names are distinct, so dropping a variable is dropping all that bear its name. */
  lemma {:induction false} DropIsFilter(vars: seq<Entry>, i: nat)
    requires DistinctNames(vars) && i < |vars|
    ensures vars[..i] + vars[i + 1..] == Filter(vars, NotNamed(vars[i].name))
  {
    hide Filter;
    var p := NotNamed(vars[i].name);
    FilterAll(vars[..i], p);
    FilterAll(vars[i + 1..], p);
    FilterNone([vars[i]], p);
    FilterJoin(vars[..i], [vars[i]], p);
    FilterJoin(vars[..i] + [vars[i]], vars[i + 1..], p);
    assert vars == vars[..i] + [vars[i]] + vars[i + 1..];
  }

  ghost predicate Named(nodes: seq<Variable>, name: string) { exists i :: 0 <= i < |nodes| && nodes[i].name == name }

  ghost function IndexOf(nodes: seq<Variable>, name: string): (i: nat)
    requires Named(nodes, name)
    ensures i < |nodes| && nodes[i].name == name
    ensures forall j :: 0 <= j < i ==> nodes[j].name != name
  {
    if nodes[0].name == name then 0 else 1 + IndexOf(nodes[1..], name)
  }

  lemma FollowedOnce(nodes: seq<Variable>, i: nat, j: nat)
    requires Distinct(nodes) && i < |nodes| && j < |nodes| && i != j
    requires Following(nodes, i) != null
    ensures Following(nodes, i) != Following(nodes, j)
  {
  }

  /** All nodes but nodes[i] are linked as if it were not there. */
  ghost predicate Skipped(nodes: seq<Variable>, i: nat)
    requires i < |nodes|
    reads nodes
  {
    && (forall j {:trigger nodes[j].next} :: 0 <= j < |nodes| && j != i ==>
          nodes[j].next == NodeAt(nodes, if j + 1 == i then j + 2 else j + 1))
    && (forall j {:trigger nodes[j].nextByScope} :: 0 <= j < |nodes| && j != i ==>
          nodes[j].nextByScope == if Following(nodes, j) == nodes[i] then Following(nodes, i) else Following(nodes, j))
  }

  lemma RightForTheRest(nodes: seq<Variable>, i: nat)
    requires Distinct(nodes) && i < |nodes| && Skipped(nodes, i)
    ensures var rest := Dropped(nodes, i);
            && Distinct(rest)
            && (forall j {:trigger rest[j].next} :: 0 <= j < |rest| ==> rest[j].next == NodeAt(rest, j + 1))
            && (forall j {:trigger rest[j].nextByScope} :: 0 <= j < |rest| ==>
                  rest[j].nextByScope == Following(rest, j))
  {
    hide NextOf, Following, Distinct;
    NodesDropped(nodes, i);
    var rest := Dropped(nodes, i);
    forall j | 0 <= j < |rest| ensures rest[j].next == NodeAt(rest, j + 1) && rest[j].nextByScope == Following(rest, j)
    {
      assert rest[j] == nodes[if j < i then j else j + 1];
    }
  }

  /** The first node of a name that comes first follows nothing. */
  lemma NotBefore(nodes: seq<Variable>, i: nat)
    requires Distinct(nodes) && i < |nodes|
    ensures forall j :: i <= j < |nodes| ==> Following(nodes, j) != nodes[i]
  {
  }

  lemma NodesDropped(nodes: seq<Variable>, i: nat)
    requires Distinct(nodes) && i < |nodes|
    ensures Distinct(Dropped(nodes, i))
    ensures forall j :: 0 <= j < |nodes| - 1 ==>
              var at := if j < i then j else j + 1;
              Following(Dropped(nodes, i), j) ==
                if Following(nodes, at) == nodes[i] then Following(nodes, i) else Following(nodes, at)
  {
    forall j | 0 <= j < |nodes| - 1
      ensures var at := if j < i then j else j + 1;
              Following(Dropped(nodes, i), j) ==
                if Following(nodes, at) == nodes[i] then Following(nodes, i) else Following(nodes, at)
    {
      DroppingRelinks(nodes, i, if j < i then j else j + 1);
    }
  }

  lemma NodesAppended(nodes: seq<Variable>, v: Variable)
    requires Distinct(nodes) && v !in nodes
    ensures Distinct(nodes + [v]) && Following(nodes + [v], |nodes|) == null
    ensures Entries(nodes + [v]) == Entries(nodes) + [v.Declared()]
    ensures forall i :: 0 <= i < |nodes| ==>
              Following(nodes + [v], i) ==
                if Following(nodes, i) == null && nodes[i].scope == v.scope then v else Following(nodes, i)
  {
    forall i | 0 <= i < |nodes|
      ensures Following(nodes + [v], i) ==
                if Following(nodes, i) == null && nodes[i].scope == v.scope then v else Following(nodes, i)
    {
      AppendingLinksTheLast(nodes, v, i);
    }
  }

  ghost function Entries(nodes: seq<Variable>): seq<Entry> {
    seq(|nodes|, i requires 0 <= i < |nodes| => nodes[i].Declared())
  }
}
