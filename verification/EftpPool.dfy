/** Packet nodes: the pool of unused nodes, the packet queue of a session, and the
    claim that no node is ever lost or held twice. */
module EftpPool {
  import opened Basics
  import opened EftpSession
  import EftpDispatch
  import opened Runs

  /** Once the pool holds more than this many nodes, nodes are freed instead. */
  const POOL_MAX_SIZE: nat := 0x100

  // ----- What the list operations do, on sequences -----

  /** The pool after one node is returned, and the nodes that are freed. */
  function PutOne<T>(pool: seq<T>, x: T): (seq<T>, seq<T>) {
    if |pool| > POOL_MAX_SIZE then (pool, [x]) else ([x] + pool, [])
  }

  function PutMass<T>(pool: seq<T>, xs: seq<T>): (seq<T>, seq<T>) {
    if |pool| > POOL_MAX_SIZE then (pool, xs) else (xs + pool, [])
  }

  lemma DistinctJoin<T>(xs: seq<T>, ys: seq<T>)
    requires Distinct(xs) && Distinct(ys) && forall x <- xs :: x !in ys
    ensures Distinct(xs + ys)
  {
    forall i, j | 0 <= i < j < |xs + ys| ensures (xs + ys)[i] != (xs + ys)[j] {
      if i < |xs| <= j {
        assert xs[i] !in ys && (xs + ys)[j] == ys[j - |xs|];
      }
    }
  }

  // ----- The linked lists -----

  class Pkt {
    var next: Pkt?
    var buffer: seq<Byte>

    constructor ()
      ensures next == null && buffer == []
    {
      next, buffer := null, [];
    }
  }

  /** `head` starts an acyclic chain through exactly `nodes`, in this order. */
  ghost predicate Chain(head: Pkt?, nodes: seq<Pkt>)
    reads nodes
  {
    && Distinct(nodes)
    && (head == if nodes == [] then null else nodes[0])
    && (forall i {:trigger nodes[i].next} :: 0 <= i < |nodes| ==>
          nodes[i].next == if i + 1 < |nodes| then nodes[i + 1] else null)
  }

  class PktPool {
    var head: Pkt?
    var size: nat
    ghost var nodes: seq<Pkt>
    ghost var freed: seq<Pkt>

    ghost predicate Valid()
      reads this, nodes
    {
      Chain(head, nodes) && size == |nodes|
    }

    constructor ()
      ensures Valid() && nodes == [] && freed == []
    {
      head, size, nodes, freed := null, 0, [], [];
    }

    method PutOnePkt(p: Pkt)
      requires Valid() && p !in nodes
      modifies this, p
      ensures Valid()
      ensures nodes == PutOne(old(nodes), p).0
      ensures freed == old(freed) + PutOne(old(nodes), p).1
    {
      if size > POOL_MAX_SIZE {
        freed := freed + [p];
        return;
      }
      p.next := head;
      head := p;
      size := size + 1;
      nodes := [p] + nodes;
    }

    /** `xs` is the list from `first` to `last`. */
    method PutMassPkt(first: Pkt?, last: Pkt?, nodeNum: nat, ghost xs: seq<Pkt>)
      requires Valid() && Chain(first, xs) && nodeNum == |xs|
      requires xs != [] ==> last == xs[|xs| - 1]
      requires forall p <- xs :: p !in nodes
      modifies this, xs
      ensures Valid()
      ensures nodes == PutMass(old(nodes), xs).0
      ensures freed == old(freed) + PutMass(old(nodes), xs).1
    {
      if first == null {
        return;
      }
      if size > POOL_MAX_SIZE {
        var cursor := first;
        ghost var k := 0;
        while cursor != null
          invariant 0 <= k <= |xs| && freed == old(freed) + xs[..k]
          invariant cursor == if k < |xs| then xs[k] else null
          invariant nodes == old(nodes) && Valid() && Chain(first, xs)
          decreases |xs| - k
        {
          freed := freed + [cursor];
          cursor := cursor.next;
          k := k + 1;
        }
        assert xs[..|xs|] == xs;
      } else {
        last.next := head;
        head := first;
        size := size + nodeNum;
        nodes := xs + nodes;
        DistinctJoin(xs, old(nodes));
        assert forall i {:trigger nodes[i].next} :: 0 <= i < |xs| - 1 ==>
                 nodes[i] == xs[i] && nodes[i] != last && nodes[i].next == xs[i + 1];
        assert nodes[|xs| - 1] == last && last in xs;
        assert forall i {:trigger nodes[i].next} :: |xs| <= i < |nodes| ==>
                 nodes[i] == old(nodes)[i - |xs|] && nodes[i] != last &&
                 nodes[i].next == old(nodes[i - |xs|].next);
      }
    }

    /** Takes a node from the pool, or makes one. */
    method Get() returns (p: Pkt)
      requires Valid()
      modifies this
      ensures Valid() && p !in nodes && freed == old(freed)
      ensures if old(nodes) == [] then fresh(p) && nodes == [] else [p] + nodes == old(nodes)
    {
      if head == null {
        p := new Pkt();
      } else {
        p := head;
        head := head.next;
        size := size - 1;
        nodes := nodes[1..];
      }
    }
  }

  /** The packet list of a session. */
  class PktQueue {
    var head: Pkt?
    var tail: Pkt?
    var nodeNum: nat
    ghost var nodes: seq<Pkt>

    ghost predicate Valid()
      reads this, nodes
    {
      && Chain(head, nodes)
      && (tail == if nodes == [] then null else nodes[|nodes| - 1])
      && nodeNum == |nodes|
    }

    constructor ()
      ensures Valid() && nodes == []
    {
      head, tail, nodeNum, nodes := null, null, 0, [];
    }

    /** Appends a packet that `PktSave` has prepared. */
    method Put(p: Pkt)
      requires Valid() && p !in nodes && p.next == null
      modifies this, nodes, p
      ensures Valid() && nodes == old(nodes) + [p]
    {
      if head == null {
        head := p;
        tail := p;
      } else {
        tail.next := p;
        p.next := null;
        tail := p;
      }
      nodeNum := nodeNum + 1;
      nodes := nodes + [p];
    }

    /** Takes the oldest packet; the caller has found the queue nonempty. The link
        of the packet that is handed out still points into the queue. */
    method Get() returns (p: Pkt)
      requires Valid() && head != null
      modifies this
      ensures Valid() && [p] + nodes == old(nodes) && p !in nodes
    {
      p := head;
      if head == tail {
        assert |nodes| == 1 by {
          assert nodes[0] == nodes[|nodes| - 1];
        }
        head := null;
        tail := null;
      } else {
        head := head.next;
      }
      nodeNum := nodeNum - 1;
      nodes := nodes[1..];
    }

    /** Returns the whole list to the pool when the session closes. */
    method Delete(pool: PktPool)
      requires Valid() && pool.Valid()
      requires forall p <- nodes :: p !in pool.nodes
      modifies this, nodes, pool
      ensures Valid() && nodes == [] && pool.Valid()
      ensures pool.nodes == PutMass(old(pool.nodes), old(nodes)).0
      ensures pool.freed == old(pool.freed) + PutMass(old(pool.nodes), old(nodes)).1
    {
      var first, last, num := head, tail, nodeNum;
      ghost var xs := nodes;
      head := null;
      tail := null;
      nodeNum := 0;
      nodes := [];
      pool.PutMassPkt(first, last, num, xs);
    }
  }

  // ----- Conservation over every run -----

  /** What a session is found by. */
  type Mac = EftpDispatch.Key

  /** All nodes that exist. A node that a thread has taken out of the pool or a
      queue and not yet put anywhere is in its hands. `size` and the counts are the
      counters that the code keeps; `made` is a history. */
  datatype Store<!T> = Store(
    pool: seq<T>, size: nat,
    queues: map<Mac, seq<T>>, counts: map<Mac, nat>,
    hands: set<T>, freed: set<T>, made: set<T>)

  datatype Action<T> =
    | Take(x: T)               // from the pool, or newly allocated
    | Open(mac: Mac)
    | Enqueue(mac: Mac, x: T)
    | Dequeue(mac: Mac)
    | GiveBack(x: T)
    | Close(mac: Mac)

  predicate Enabled<T(==)>(s: Store<T>, a: Action<T>) {
    match a
    case Take(x) => if s.pool == [] then x !in s.made else x == s.pool[0]
    case Open(mac) => mac !in s.queues
    case Enqueue(mac, x) => mac in s.queues && mac in s.counts && x in s.hands
    case Dequeue(mac) => mac in s.queues && mac in s.counts && s.queues[mac] != [] && s.counts[mac] > 0
    case GiveBack(x) => x in s.hands
    case Close(mac) => mac in s.queues && mac in s.counts
  }

  function Elements<T(==)>(xs: seq<T>): set<T> { set x | x in xs }

  function Apply<T(==)>(s: Store<T>, a: Action<T>): Store<T>
    requires Enabled(s, a)
  {
    match a
    case Take(x) =>
      if s.pool == [] then s.(hands := s.hands + {x}, made := s.made + {x})
      else s.(pool := s.pool[1..], size := if s.size > 0 then s.size - 1 else 0, hands := s.hands + {x})
    case Open(mac) => s.(queues := s.queues[mac := []], counts := s.counts[mac := 0])
    case Enqueue(mac, x) =>
      s.(queues := s.queues[mac := s.queues[mac] + [x]], counts := s.counts[mac := s.counts[mac] + 1],
         hands := s.hands - {x})
    case Dequeue(mac) =>
      s.(queues := s.queues[mac := s.queues[mac][1..]], counts := s.counts[mac := s.counts[mac] - 1],
         hands := s.hands + {s.queues[mac][0]})
    case GiveBack(x) =>
      var (pool, out) := PutOne(s.pool, x);
      s.(pool := pool, size := if out == [] then s.size + 1 else s.size,
         hands := s.hands - {x}, freed := s.freed + Elements(out))
    case Close(mac) =>
      var (pool, out) := PutMass(s.pool, s.queues[mac]);
      s.(pool := pool, size := if |s.pool| > POOL_MAX_SIZE then s.size else s.size + s.counts[mac],
         queues := s.queues - {mac}, counts := s.counts - {mac}, freed := s.freed + Elements(out))
  }

  datatype Place = InPool | InQueue(mac: Mac) | InHands | Freed

  ghost predicate At<T>(s: Store<T>, x: T, place: Place) {
    match place
    case InPool => x in s.pool
    case InQueue(mac) => mac in s.queues && x in s.queues[mac]
    case InHands => x in s.hands
    case Freed => x in s.freed
  }

  ghost predicate Conserved<T(!new)>(s: Store<T>) {
    && s.size == |s.pool| && Distinct(s.pool)
    && s.counts.Keys == s.queues.Keys
    && (forall mac <- s.queues :: s.counts[mac] == |s.queues[mac]| && Distinct(s.queues[mac]))
    && (forall x, p :: At(s, x, p) ==> x in s.made)
    && (forall x, p, q :: At(s, x, p) && At(s, x, q) ==> p == q)
    && (forall x <- s.made :: exists p :: At(s, x, p))
  }

  function Init<T>(): Store<T> { Store([], 0, map[], map[], {}, {}, {}) }

  function Step<T(==)>(): (Store<T>, Action<T>) -> Option<Store<T>> {
    (s: Store<T>, a: Action<T>) => if Enabled(s, a) then Some(Apply(s, a)) else None
  }

  /** Where the node x goes when the step is taken. */
  ghost function Moved<T>(s: Store<T>, a: Action<T>, x: T, from: Place): Place
    requires Enabled(s, a)
  {
    match a
    case Take(y) => if y == x then InHands else from
    case Open(_) => from
    case Enqueue(mac, y) => if y == x then InQueue(mac) else from
    case Dequeue(mac) => if s.queues[mac][0] == x then InHands else from
    case GiveBack(y) => if y == x then (if |s.pool| > POOL_MAX_SIZE then Freed else InPool) else from
    case Close(mac) => if from == InQueue(mac) then (if |s.pool| > POOL_MAX_SIZE then Freed else InPool) else from
  }

  /** In the new state a node is exactly where the step has moved it. */
  lemma StepMoves<T(!new)>(s: Store<T>, a: Action<T>, x: T, from: Place, to: Place)
    requires Conserved(s) && Enabled(s, a) && At(s, x, from)
    ensures At(Apply(s, a), x, to) <==> to == Moved(s, a, x, from)
  {
    assert At(s, x, to) <==> to == from;
    match a
    case Take(y) =>
      if s.pool != [] {
        HeadLeaves(s.pool, x);
        assert At(s, y, InPool);
      }
    case Open(mac) =>
    case Enqueue(mac, y) =>
      assert At(s, y, InHands);
    case Dequeue(mac) =>
      HeadLeaves(s.queues[mac], x);
      assert At(s, s.queues[mac][0], InQueue(mac));
    case GiveBack(y) =>
      assert At(s, y, InHands);
    case Close(mac) => CloseMoves(s, mac, x, from, to);
  }

  lemma CloseMoves<T(!new)>(s: Store<T>, mac: Mac, x: T, from: Place, to: Place)
    requires Conserved(s) && Enabled(s, Close(mac)) && At(s, x, from)
    ensures At(Apply(s, Close(mac)), x, to) <==> to == Moved(s, Close(mac), x, from)
  {
    assert At(s, x, to) <==> to == from;
    assert At(s, x, InQueue(mac)) <==> from == InQueue(mac);
    assert At(s, x, InPool) <==> from == InPool;
    assert At(s, x, Freed) <==> from == Freed;
  }

  lemma HeadLeaves<T>(xs: seq<T>, x: T)
    requires Distinct(xs) && xs != []
    ensures x in xs[1..] <==> x in xs && x != xs[0]
  {
    if x in xs && x != xs[0] {
      var i :| 0 <= i < |xs| && xs[i] == x;
      assert xs[1..][i - 1] == x;
    }
  }

  lemma StepKeepsPlaces<T(!new)>(s: Store<T>, a: Action<T>)
    requires Conserved(s) && Enabled(s, a)
    ensures var t := Apply(s, a);
            && (forall x, p :: At(t, x, p) ==> x in t.made)
            && (forall x, p, q :: At(t, x, p) && At(t, x, q) ==> p == q)
            && (forall x <- t.made :: exists p :: At(t, x, p))
  {
    var t := Apply(s, a);
    assert s.made <= t.made;
    forall x, p | At(t, x, p)
      ensures x in t.made && forall q :: At(t, x, q) ==> p == q
    {
      if x in s.made {
        var from :| At(s, x, from);
        forall q | At(t, x, q) ensures p == q {
          StepMoves(s, a, x, from, p);
          StepMoves(s, a, x, from, q);
        }
      } else {
        NewNode(s, a, x, p);
        forall q | At(t, x, q) ensures p == q {
          NewNode(s, a, x, q);
        }
      }
    }
    forall x <- t.made ensures exists p :: At(t, x, p) {
      if x in s.made {
        var from :| At(s, x, from);
        StepMoves(s, a, x, from, Moved(s, a, x, from));
      } else {
        assert At(t, x, InHands);
      }
    }
  }

  /** A node that did not exist before the step is in the hands of its taker. */
  lemma NewNode<T(!new)>(s: Store<T>, a: Action<T>, x: T, p: Place)
    requires Conserved(s) && Enabled(s, a) && x !in s.made && At(Apply(s, a), x, p)
    ensures a == Take(x) && p == InHands && x in Apply(s, a).made
  {
    assert !At(s, x, p) && !At(s, x, InPool) && !At(s, x, InHands);
    assert a.Close? || a.Dequeue? ==> !At(s, x, InQueue(a.mac));
  }

  lemma StepKeepsLists<T(!new)>(s: Store<T>, a: Action<T>)
    requires Conserved(s) && Enabled(s, a)
    ensures var t := Apply(s, a);
            && t.size == |t.pool| && Distinct(t.pool)
            && t.counts.Keys == t.queues.Keys
            && (forall mac <- t.queues :: t.counts[mac] == |t.queues[mac]| && Distinct(t.queues[mac]))
  {
    match a
    case Enqueue(mac, x) =>
      assert At(s, x, InHands) && !At(s, x, InQueue(mac));
      DistinctJoin(s.queues[mac], [x]);
    case GiveBack(x) =>
      assert At(s, x, InHands) && !At(s, x, InPool);
      DistinctJoin([x], s.pool);
    case Close(mac) =>
      forall x <- s.queues[mac] ensures x !in s.pool {
        assert At(s, x, InQueue(mac)) && !At(s, x, InPool);
      }
      DistinctJoin(s.queues[mac], s.pool);
    case _ =>
  }

  /** In every reachable state each node ever made is in exactly one place, no list
      holds a node twice, and the counters are the list lengths. */
  lemma PacketsAreConserved<T(!new)>(run: seq<Action<T>>)
    requires Run(Step(), Init<T>(), run)
    ensures Conserved(End(Step(), Init<T>(), run))
  {
    forall s: Store<T>, a | Conserved(s) && Step()(s, a).Some? ensures Conserved(Step()(s, a).value) {
      StepKeepsPlaces(s, a);
      StepKeepsLists(s, a);
    }
    RunKeeps(Step(), Anything(), (s: Store<T>) => Conserved(s), Init<T>(), run);
  }
}
