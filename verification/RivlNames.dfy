/** The names that the walk gives to the leaves never collide. */
module RivlNames {
  import opened RivlLayout
  import opened RivlTypedef
  import opened RivlWalk

  /** Member names contain neither of the two characters that the walk inserts. */
  predicate Clean(name: string) { '.' !in name && '(' !in name }

  ghost predicate CleanNames(reg: Registry) {
    forall i, k :: 0 <= i < |reg| && 0 <= k < |reg[i].members| ==> Clean(reg[i].members[k].name)
  }

  ghost predicate DistinctMembers(reg: Registry) {
    forall i :: 0 <= i < |reg| ==> DistinctNames(reg[i].members)
  }

  /** s is `base`, or goes on behind `base` with one of the two characters. */
  predicate Extends(s: string, base: string) {
    base <= s && (|s| > |base| ==> s[|base|] == '.' || s[|base|] == '(')
  }

  lemma ExtendsDotted(s: string, name: string, member: string)
    requires Extends(s, Dotted(name, member))
    ensures Extends(s, name) && |s| > |name| && s[|name|] == '.'
  {
    assert Dotted(name, member)[|name|] == '.';
    assert s[|name|] == Dotted(name, member)[|name|];
    assert name == Dotted(name, member)[..|name|] == s[..|name|];
  }

  lemma ExtendsIndexed(s: string, name: string, i: nat)
    requires Extends(s, Indexed(name, i))
    ensures Extends(s, name) && |s| > |name| && s[|name|] == '('
  {
    assert Indexed(name, i)[|name|] == '(';
    assert s[|name|] == Indexed(name, i)[|name|];
    assert name == Indexed(name, i)[..|name|] == s[..|name|];
  }

  lemma DifferentMembers(s: string, name: string, a: string, b: string)
    requires Clean(a) && Clean(b)
    requires Extends(s, Dotted(name, a)) && Extends(s, Dotted(name, b))
    ensures a == b
  {
    var n := |name| + 1;
    assert s[..n + |a|] == Dotted(name, a) && s[..n + |b|] == Dotted(name, b);
    assert s[n..n + |a|] == Dotted(name, a)[n..] == a;
    assert s[n..n + |b|] == Dotted(name, b)[n..] == b;
    assert forall k :: 0 <= k < |a| ==> s[n + k] == a[k];
    assert forall k :: 0 <= k < |b| ==> s[n + k] == b[k];
  }

  lemma {:induction false} DecimalDigits(n: nat)
    ensures forall k :: 0 <= k < |Decimal(n)| ==> Decimal(n)[k] != ')'
  {
    if n >= 10 {
      DecimalDigits(n / 10);
    }
  }

  lemma {:induction false} DecimalIsInjective(m: nat, n: nat)
    requires Decimal(m) == Decimal(n)
    ensures m == n
  {
    if m < 10 && n < 10 {
      assert Decimal(m)[0] == Decimal(n)[0];
    } else if m >= 10 && n >= 10 {
      var s := Decimal(m);
      assert s[..|s| - 1] == Decimal(m / 10) == Decimal(n / 10);
      assert s[|s| - 1] == Digit(m % 10) == Digit(n % 10);
      DecimalIsInjective(m / 10, n / 10);
    }
  }

  lemma DifferentIndices(s: string, name: string, i: nat, j: nat)
    requires Indexed(name, i) <= s && Indexed(name, j) <= s
    ensures i == j
  {
    var n, a, b := |name| + 1, Decimal(i), Decimal(j);
    DecimalDigits(i);
    DecimalDigits(j);
    assert s[n..n + |a|] == Indexed(name, i)[n..n + |a|] == a;
    assert s[n..n + |b|] == Indexed(name, j)[n..n + |b|] == b;
    assert s[n + |a|] == Indexed(name, i)[n + |a|] == ')';
    assert s[n + |b|] == Indexed(name, j)[n + |b|] == ')';
    assert forall k :: 0 <= k < |a| ==> s[n + k] == a[k] && a[k] != ')';
    assert forall k :: 0 <= k < |b| ==> s[n + k] == b[k] && b[k] != ')';
    assert |a| == |b|;
    DecimalIsInjective(i, j);
  }

  // ----- Every leaf name extends the name it was reached by -----

  ghost predicate AllExtend(ls: seq<Leaf>, base: string) {
    forall l <- ls :: Extends(l.name, base)
  }

  lemma {:induction false} WalkOneExtends(reg: Registry, ty: TypeName, name: string, off: nat)
    requires Ranked(reg) && Known(reg, ty)
    ensures AllExtend(WalkOne(reg, ty, name, off), name)
    decreases Rank(reg, ty), 0, 0
  {
    if ty.Named? {
      var i := Find(reg, ty.name).value;
      WalkMembersExtend(reg, i, |reg[i].members|, name, off);
      forall l <- WalkOne(reg, ty, name, off) ensures Extends(l.name, name) {
        assert UnderMember(reg, i, |reg[i].members|, name, l);
        var k :| 0 <= k < |reg[i].members| && Extends(l.name, Dotted(name, reg[i].members[k].name));
        ExtendsDotted(l.name, name, reg[i].members[k].name);
      }
    }
  }

  ghost predicate UnderMember(reg: Registry, i: nat, k: nat, name: string, l: Leaf)
    requires i < |reg| && k <= |reg[i].members|
  {
    exists j :: 0 <= j < k && Extends(l.name, Dotted(name, reg[i].members[j].name))
  }

  lemma {:induction false} WalkMembersExtend(reg: Registry, i: nat, k: nat, name: string, off: nat)
    requires Ranked(reg) && i < |reg| && k <= |reg[i].members|
    ensures forall l <- WalkMembers(reg, i, k, name, off) :: UnderMember(reg, i, k, name, l)
    decreases i, 3, k
  {
    if k > 0 {
      var m := reg[i].members[k - 1];
      WalkMembersExtend(reg, i, k - 1, name, off);
      WalkExtends(reg, m.ty, m.isArray, m.arrayNum, Dotted(name, m.name), off + m.offset);
    }
  }

  lemma {:induction false} WalkExtends(reg: Registry, ty: TypeName, isArray: bool, num: nat, name: string, off: nat)
    requires Ranked(reg) && Known(reg, ty)
    ensures AllExtend(Walk(reg, ty, isArray, num, name, off), name)
    decreases Rank(reg, ty), 2, 0
  {
    if isArray {
      WalkElementsExtend(reg, ty, num, name, off);
      forall l <- Walk(reg, ty, isArray, num, name, off) ensures Extends(l.name, name) {
        assert UnderIndex(num, name, l);
        var j :| 0 <= j < num && Extends(l.name, Indexed(name, j));
        ExtendsIndexed(l.name, name, j);
      }
    } else {
      WalkOneExtends(reg, ty, name, off);
    }
  }

  ghost predicate UnderIndex(n: nat, name: string, l: Leaf) {
    exists j :: 0 <= j < n && Extends(l.name, Indexed(name, j))
  }

  lemma {:induction false} WalkElementsExtend(reg: Registry, ty: TypeName, n: nat, name: string, off: nat)
    requires Ranked(reg) && Known(reg, ty)
    ensures forall l <- WalkElements(reg, ty, n, name, off) :: UnderIndex(n, name, l)
    decreases Rank(reg, ty), 1, n
  {
    if n > 0 {
      WalkElementsExtend(reg, ty, n - 1, name, off);
      WalkOneExtends(reg, ty, Indexed(name, n - 1), ElementOff(reg, ty, off, n - 1));
    }
  }

  // ----- No two leaves have the same name -----

  ghost predicate NamesDiffer(ls: seq<Leaf>) {
    forall a, b :: 0 <= a < b < |ls| ==> ls[a].name != ls[b].name
  }

  lemma NamesDifferJoin(xs: seq<Leaf>, ys: seq<Leaf>)
    requires NamesDiffer(xs) && NamesDiffer(ys)
    requires forall x <- xs, y <- ys :: x.name != y.name
    ensures NamesDiffer(xs + ys)
  {
    forall a, b | 0 <= a < b < |xs + ys| ensures (xs + ys)[a].name != (xs + ys)[b].name {
      if a < |xs| <= b {
        assert (xs + ys)[a] in xs && (xs + ys)[b] in ys;
      }
    }
  }

  ghost predicate Nameable(reg: Registry) { Ranked(reg) && CleanNames(reg) && DistinctMembers(reg) }

  lemma {:induction false} WalkOneNames(reg: Registry, ty: TypeName, name: string, off: nat)
    requires Nameable(reg) && Known(reg, ty)
    ensures NamesDiffer(WalkOne(reg, ty, name, off))
    decreases Rank(reg, ty), 0, 0
  {
    if ty.Named? {
      var i := Find(reg, ty.name).value;
      WalkMembersNames(reg, i, |reg[i].members|, name, off);
    }
  }

  lemma {:induction false} WalkMembersNames(reg: Registry, i: nat, k: nat, name: string, off: nat)
    requires Nameable(reg) && i < |reg| && k <= |reg[i].members|
    ensures NamesDiffer(WalkMembers(reg, i, k, name, off))
    decreases i, 3, k
  {
    if k > 0 {
      var m := reg[i].members[k - 1];
      var xs := WalkMembers(reg, i, k - 1, name, off);
      var ys := Walk(reg, m.ty, m.isArray, m.arrayNum, Dotted(name, m.name), off + m.offset);
      WalkMembersNames(reg, i, k - 1, name, off);
      WalkNames(reg, m.ty, m.isArray, m.arrayNum, Dotted(name, m.name), off + m.offset);
      WalkMembersExtend(reg, i, k - 1, name, off);
      WalkExtends(reg, m.ty, m.isArray, m.arrayNum, Dotted(name, m.name), off + m.offset);
      forall x <- xs, y <- ys ensures x.name != y.name {
        assert UnderMember(reg, i, k - 1, name, x);
        var j :| 0 <= j < k - 1 && Extends(x.name, Dotted(name, reg[i].members[j].name));
        assert Clean(m.name) && Clean(reg[i].members[j].name) && reg[i].members[j].name != m.name by {
          assert DistinctNames(reg[i].members);
        }
        if x.name == y.name {
          DifferentMembers(x.name, name, reg[i].members[j].name, m.name);
        }
      }
      NamesDifferJoin(xs, ys);
    }
  }

  lemma {:induction false} WalkNames(reg: Registry, ty: TypeName, isArray: bool, num: nat, name: string, off: nat)
    requires Nameable(reg) && Known(reg, ty)
    ensures NamesDiffer(Walk(reg, ty, isArray, num, name, off))
    decreases Rank(reg, ty), 2, 0
  {
    if isArray {
      WalkElementsNames(reg, ty, num, name, off);
    } else {
      WalkOneNames(reg, ty, name, off);
    }
  }

  lemma {:induction false} WalkElementsNames(reg: Registry, ty: TypeName, n: nat, name: string, off: nat)
    requires Nameable(reg) && Known(reg, ty)
    ensures NamesDiffer(WalkElements(reg, ty, n, name, off))
    decreases Rank(reg, ty), 1, n
  {
    if n > 0 {
      var xs := WalkElements(reg, ty, n - 1, name, off);
      var ys := WalkOne(reg, ty, Indexed(name, n - 1), ElementOff(reg, ty, off, n - 1));
      WalkElementsNames(reg, ty, n - 1, name, off);
      WalkOneNames(reg, ty, Indexed(name, n - 1), ElementOff(reg, ty, off, n - 1));
      WalkElementsExtend(reg, ty, n - 1, name, off);
      WalkOneExtends(reg, ty, Indexed(name, n - 1), ElementOff(reg, ty, off, n - 1));
      forall x <- xs, y <- ys ensures x.name != y.name {
        assert UnderIndex(n - 1, name, x);
        var j :| 0 <= j < n - 1 && Extends(x.name, Indexed(name, j));
        if x.name == y.name {
          DifferentIndices(x.name, name, j, n - 1);
        }
      }
      NamesDifferJoin(xs, ys);
    }
  }

  /** For every variable, an array or not, of every type that the commands can define, with
      member names free of the two separators, the walk sets pairwise different variables. */
  lemma {:induction false} WalkNamesAreDistinct(
    reg: Registry, szPtr: nat, ty: TypeName, isArray: bool, num: nat, name: string, off: nat)
    requires WellFormed(reg, szPtr) && CleanNames(reg) && Known(reg, ty)
    ensures Ranked(reg) && NamesDiffer(Walk(reg, ty, isArray, num, name, off))
  {
    WellFormedIsRanked(reg, szPtr);
    forall i | 0 <= i < |reg| ensures DistinctNames(reg[i].members) {
      assert Built(reg, szPtr, i);
    }
    WalkNames(reg, ty, isArray, num, name, off);
  }
}
